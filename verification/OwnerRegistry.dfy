/** `ACPSessionRegistry` (src/synapse/acp/sessions.py:163-309): sessions share runtime owners, and an owner is
    closed by whoever drops its last reference.  Creates, closes and the one shutdown interleave between their
    lock sections; whether a session's own close raises makes no difference to what follows it. */
module OwnerRegistry {
  import opened Wrappers

  /** `_sessions`, by the owner each session uses, and `_owner_refs`. */
  datatype Registry = Registry(sessions: map<string, Option<nat>>, refs: map<nat, nat>)

  /** `_retain_owner` */
  function Retain(refs: map<nat, nat>, owner: Option<nat>): map<nat, nat> {
    match owner
    case None => refs
    case Some(o) => refs[o := if o in refs then refs[o] + 1 else 1]
  }

  /** `_release_owner`: the reduced counts, and whether the caller must close the owner. */
  function Release(refs: map<nat, nat>, o: nat): (map<nat, nat>, bool) {
    if o !in refs then (refs, false)
    else if refs[o] > 1 then (refs[o := refs[o] - 1], false)
    else (refs - {o}, true)
  }

  /** The registry with what is in flight around it: `closing` are owners of popped sessions not yet released,
      `due` are `owner.close()` calls still to be made, `closed` those made.  `ever` and `retired` are history:
      owners seen, and owners somebody has taken charge of closing. */
  datatype State = State(
    reg: Registry,
    shut: bool,
    closing: multiset<nat>,
    due: multiset<nat>,
    closed: multiset<nat>,
    ever: set<nat>,
    retired: set<nat>)

  const INITIAL := State(Registry(map[], map[]), false, multiset{}, multiset{}, multiset{}, {}, {})

  datatype Step =
    | Register(sid: string, owner: Option<nat>)     // `create` and `add` with a new id
    | DuplicateCreate(sid: string, own: nat)      // `create` with a taken id: clean up its own owner
    | Pop(sid: string)                              // `close`, first section
    | ReleaseOwner(o: nat)                      // `close`, after the session's close returned or raised
    | CloseOwner(o: nat)
    | Shutdown                                      // `_shutdown_impl`, its lock section

  predicate Enabled(s: State, step: Step) {
    match step
    case Register(sid, owner) => sid !in s.reg.sessions && (owner.Some? ==> owner.value !in s.retired)
    case DuplicateCreate(sid, o) => sid in s.reg.sessions && o !in s.ever
    case Pop(sid) => sid in s.reg.sessions
    case ReleaseOwner(o) => o in s.closing
    case CloseOwner(o) => o in s.due
    case Shutdown => !s.shut
  }

  function Owners(owner: Option<nat>): set<nat> {
    if owner.Some? then {owner.value} else {}
  }

  function Apply(s: State, step: Step): State
    requires Enabled(s, step)
  {
    match step
    case Register(sid, owner) =>
      s.(reg := Registry(s.reg.sessions[sid := owner], Retain(s.reg.refs, owner)), ever := s.ever + Owners(owner))
    case DuplicateCreate(_, o) =>
      s.(due := s.due + multiset{o}, ever := s.ever + {o}, retired := s.retired + {o})
    case Pop(sid) =>
      s.(reg := s.reg.(sessions := s.reg.sessions - {sid}),
         closing := s.closing + multiset(Owners(s.reg.sessions[sid])))
    case ReleaseOwner(o) =>
      var (refs, last) := Release(s.reg.refs, o);
      var t := s.(reg := s.reg.(refs := refs), closing := s.closing - multiset{o});
      if last then t.(due := t.due + multiset{o}, retired := t.retired + {o}) else t
    case CloseOwner(o) => s.(due := s.due - multiset{o}, closed := s.closed + multiset{o})
    case Shutdown =>
      s.(reg := Registry(map[], map[]), shut := true, due := s.due + multiset(s.reg.refs.Keys),
         retired := s.retired + s.reg.refs.Keys)
  }

  function Do(s: State, step: Step): State {
    if Enabled(s, step) then Apply(s, step) else s
  }

  function Exec(s: State, steps: seq<Step>): State {
    if steps == [] then s else Do(Exec(s, steps[..|steps| - 1]), steps[|steps| - 1])
  }

  // ---------------------------------------------------------------------------------------------

  function Users(sessions: map<string, Option<nat>>, o: nat): set<string> {
    set sid | sid in sessions && sessions[sid] == Some(o)
  }

  function RefCount(s: State, o: nat): nat {
    if o in s.reg.refs then s.reg.refs[o] else 0
  }

  lemma UsersAfterAdding(sessions: map<string, Option<nat>>, sid: string, owner: Option<nat>, o: nat)
    requires sid !in sessions
    ensures |Users(sessions[sid := owner], o)| == |Users(sessions, o)| + if owner == Some(o) then 1 else 0
  {
    var more := sessions[sid := owner];
    assert Users(more, o) == Users(sessions, o) + if owner == Some(o) then {sid} else {};
  }

  lemma UsersAfterRemoving(sessions: map<string, Option<nat>>, sid: string, o: nat)
    requires sid in sessions
    ensures |Users(sessions - {sid}, o)| == |Users(sessions, o)| - if sessions[sid] == Some(o) then 1 else 0
  {
    assert Users(sessions - {sid}, o) == Users(sessions, o) - {sid};
  }

  ghost predicate OwnerOk(s: State, o: nat) {
    if o in s.retired then
      && o !in s.reg.refs && Users(s.reg.sessions, o) == {} && s.due[o] + s.closed[o] == 1 && o in s.ever
      && (!s.shut ==> s.closing[o] == 0)
    else
      && s.due[o] == 0 && s.closed[o] == 0
      && RefCount(s, o) == |Users(s.reg.sessions, o)| + s.closing[o]
      && (o in s.reg.refs ==> s.reg.refs[o] >= 1)
      && (o in s.ever <==> o in s.reg.refs)
  }

  ghost predicate Inv(s: State) {
    forall o {:trigger OwnerOk(s, o)} :: OwnerOk(s, o)
  }

  lemma {:induction false} StepKeepsOwner(s: State, step: Step, o: nat)
    requires OwnerOk(s, o) && Enabled(s, step)
    ensures OwnerOk(Apply(s, step), o)
  {
    match step
    case Register(sid, owner) => RegisterKeepsOwner(s, sid, owner, o);
    case Pop(sid) => UsersAfterRemoving(s.reg.sessions, sid, o);
    case ReleaseOwner(p) => ReleaseKeepsOwner(s, p, o);
    case Shutdown => ShutdownKeepsOwner(s, o);
    case _ => assert Apply(s, step).reg == s.reg && Apply(s, step).closing == s.closing;
  }

  lemma RegisterKeepsOwner(s: State, sid: string, owner: Option<nat>, o: nat)
    requires OwnerOk(s, o) && Enabled(s, Register(sid, owner))
    ensures OwnerOk(Apply(s, Register(sid, owner)), o)
  {
    UsersAfterAdding(s.reg.sessions, sid, owner, o);
  }

  lemma ReleaseKeepsOwner(s: State, p: nat, o: nat)
    requires OwnerOk(s, o) && p in s.closing
    ensures OwnerOk(Apply(s, ReleaseOwner(p)), o)
  {
    var t := Apply(s, ReleaseOwner(p));
    assert Users(t.reg.sessions, o) == Users(s.reg.sessions, o);
  }

  lemma ShutdownKeepsOwner(s: State, o: nat)
    requires OwnerOk(s, o) && !s.shut
    ensures OwnerOk(Apply(s, Shutdown), o)
  {
    assert Users(Apply(s, Shutdown).reg.sessions, o) == {};
  }

  lemma {:induction false} RunKeepsInv(steps: seq<Step>)
    ensures Inv(Exec(INITIAL, steps))
  {
    if steps == [] {
      forall o: nat
        ensures OwnerOk(INITIAL, o)
      {
        assert Users(INITIAL.reg.sessions, o) == {};
      }
    } else {
      var before := steps[..|steps| - 1];
      RunKeepsInv(before);
      var s, step := Exec(INITIAL, before), steps[|steps| - 1];
      if Enabled(s, step) {
        forall o: nat
          ensures OwnerOk(Apply(s, step), o)
        {
          assert OwnerOk(s, o);
          StepKeepsOwner(s, step, o);
        }
      }
    }
  }

  // ---------------------------------------------------------------------------------------------
  // Main results

  /** Before shutdown every owner's count is the number of registered sessions plus in-flight closes using it;
      afterwards this still holds of every owner nobody has taken charge of closing. */
  lemma {:induction false} CountsAgree(steps: seq<Step>, o: nat)
    ensures var s := Exec(INITIAL, steps);
            !s.shut || o !in s.retired ==> RefCount(s, o) == |Users(s.reg.sessions, o)| + s.closing[o]
    ensures var s := Exec(INITIAL, steps);
            o in s.reg.refs ==> o !in s.retired && s.reg.refs[o] >= 1
  {
    RunKeepsInv(steps);
    assert OwnerOk(Exec(INITIAL, steps), o);
  }

  /** No owner is closed, or about to be, while a registered session uses it. */
  lemma {:induction false} NeverClosedInUse(steps: seq<Step>, o: nat, sid: string)
    requires var s := Exec(INITIAL, steps); sid in s.reg.sessions && s.reg.sessions[sid] == Some(o)
    ensures var s := Exec(INITIAL, steps); s.closed[o] == 0 && s.due[o] == 0
  {
    RunKeepsInv(steps);
    assert OwnerOk(Exec(INITIAL, steps), o);
    assert sid in Users(Exec(INITIAL, steps).reg.sessions, o);
  }

  /** Nobody is closed twice, however closes race with each other and with the shutdown. */
  lemma {:induction false} ClosedAtMostOnce(steps: seq<Step>, o: nat)
    ensures var s := Exec(INITIAL, steps); s.closed[o] + s.due[o] <= 1
  {
    RunKeepsInv(steps);
    assert OwnerOk(Exec(INITIAL, steps), o);
  }

  /** Once no session uses an owner and nothing is in flight for it, it has been closed exactly once. */
  lemma {:induction false} ClosedExactlyOnce(steps: seq<Step>, o: nat)
    requires var s := Exec(INITIAL, steps);
             o in s.ever && Users(s.reg.sessions, o) == {} && s.closing[o] == 0 && s.due[o] == 0
    ensures Exec(INITIAL, steps).closed[o] == 1
  {
    RunKeepsInv(steps);
    assert OwnerOk(Exec(INITIAL, steps), o);
  }

  /** Step `i` registers a new session under this owner. */
  ghost predicate RegisteredAt(steps: seq<Step>, i: nat, sid: string, owner: Option<nat>)
    requires i < |steps|
  {
    steps[i] == Register(sid, owner) && Enabled(Exec(INITIAL, steps[..i]), steps[i])
  }

  /** The step is possible and takes the session out of the table. */
  predicate Drops(s: State, step: Step, sid: string) {
    Enabled(s, step) && (step == Pop(sid) || step == Shutdown)
  }

  /** After step `i` nobody closes the session and nothing is shut down. */
  ghost predicate StaysAfter(steps: seq<Step>, i: nat, sid: string) {
    forall j: nat :: i < j < |steps| ==> !Drops(Exec(INITIAL, steps[..j]), steps[j], sid)
  }

  ghost predicate IsRegistered(steps: seq<Step>, sid: string, owner: Option<nat>) {
    exists i: nat :: i < |steps| && RegisteredAt(steps, i, sid, owner) && StaysAfter(steps, i, sid)
  }

  ghost predicate Has(s: State, sid: string, owner: Option<nat>) {
    sid in s.reg.sessions && s.reg.sessions[sid] == owner
  }

  /** The table as the history of the run: it holds a session exactly when it was registered with that owner and has
      not been closed or swept away since. */
  lemma {:induction false} RegisteredIff(steps: seq<Step>, sid: string, owner: Option<nat>)
    ensures Has(Exec(INITIAL, steps), sid, owner) <==> IsRegistered(steps, sid, owner)
  {
    if steps != [] {
      var n := |steps| - 1;
      RegisteredIff(steps[..n], sid, owner);
      HasStep(Exec(INITIAL, steps[..n]), steps[n], sid, owner);
      IsRegisteredStep(steps, sid, owner);
    }
  }

  lemma HasStep(s: State, step: Step, sid: string, owner: Option<nat>)
    ensures Has(Do(s, step), sid, owner) <==>
            (step == Register(sid, owner) && Enabled(s, step)) || (Has(s, sid, owner) && !Drops(s, step, sid))
  {
    if Enabled(s, step) { SessionsStep(s, step); }
  }

  lemma SessionsStep(s: State, step: Step)
    requires Enabled(s, step)
    ensures Apply(s, step).reg.sessions ==
            if step.Register? then s.reg.sessions[step.sid := step.owner]
            else if step.Pop? then s.reg.sessions - {step.sid}
            else if step.Shutdown? then map[]
            else s.reg.sessions
  {
    match step
    case ReleaseOwner(o) => assert Apply(s, step).reg.sessions == s.reg.sessions;
    case _ =>
  }

  lemma IsRegisteredStep(steps: seq<Step>, sid: string, owner: Option<nat>)
    requires steps != []
    ensures var n := |steps| - 1;
            IsRegistered(steps, sid, owner) <==>
            RegisteredAt(steps, n, sid, owner) ||
            (IsRegistered(steps[..n], sid, owner) && !Drops(Exec(INITIAL, steps[..n]), steps[n], sid))
  {
    var n := |steps| - 1;
    var before := steps[..n];
    if RegisteredAt(steps, n, sid, owner) {
      assert StaysAfter(steps, n, sid);
    } else if IsRegistered(steps, sid, owner) {
      var i: nat :| i < |steps| && RegisteredAt(steps, i, sid, owner) && StaysAfter(steps, i, sid);
      SameBefore(steps, i, sid, owner);
    } else if IsRegistered(before, sid, owner) {
      var i: nat :| i < |before| && RegisteredAt(before, i, sid, owner) && StaysAfter(before, i, sid);
      SameBefore(steps, i, sid, owner);
    }
  }

  lemma SameBefore(steps: seq<Step>, i: nat, sid: string, owner: Option<nat>)
    requires i < |steps| - 1
    ensures var n := |steps| - 1;
            && (RegisteredAt(steps[..n], i, sid, owner) <==> RegisteredAt(steps, i, sid, owner))
            && (StaysAfter(steps, i, sid) <==>
                StaysAfter(steps[..n], i, sid) && !Drops(Exec(INITIAL, steps[..n]), steps[n], sid))
  {
    assert steps[..|steps| - 1][..i] == steps[..i];
    StaysStep(steps, i, sid);
  }

  lemma StaysStep(steps: seq<Step>, i: nat, sid: string)
    requires i < |steps| - 1
    ensures var n := |steps| - 1;
            StaysAfter(steps, i, sid) <==>
            StaysAfter(steps[..n], i, sid) && !Drops(Exec(INITIAL, steps[..n]), steps[n], sid)
  {
    var n := |steps| - 1;
    var before := steps[..n];
    assert forall j :: 0 <= j <= n ==> before[..j] == steps[..j];
    forall j: nat | i < j < |steps|
      ensures Drops(Exec(INITIAL, steps[..j]), steps[j], sid) <==>
              if j < n then Drops(Exec(INITIAL, before[..j]), before[j], sid)
              else Drops(Exec(INITIAL, before), steps[n], sid)
    {
    }
  }

  /** Closing the last session of an owner closes the owner; closing one of several does not. */
  lemma {:induction false} LastCloseClosesOwner(steps: seq<Step>, sid: string, o: nat)
    requires var s := Exec(INITIAL, steps); Has(s, sid, Some(o)) && s.closing[o] == 0
    ensures var s := Exec(INITIAL, steps);
            var t := Do(Do(Do(s, Pop(sid)), ReleaseOwner(o)), CloseOwner(o));
            && !Has(t, sid, Some(o))
            && t.closed[o] == (if Users(s.reg.sessions, o) == {sid} then 1 else 0)
            && (o in t.reg.refs <==> Users(s.reg.sessions, o) != {sid})
  {
    RunKeepsInv(steps);
    var s := Exec(INITIAL, steps);
    assert OwnerOk(s, o);
    assert sid in Users(s.reg.sessions, o);
    var u := Do(s, Pop(sid));
    StepKeepsOwner(s, Pop(sid), o);
    assert u.closing[o] == 1;
    assert Users(u.reg.sessions, o) == Users(s.reg.sessions, o) - {sid};
  }

  // ---------------------------------------------------------------------------------------------

  /** The registry object: its dictionaries and the sections it runs under its lock. */
  class ACPSessionRegistry {
    var sessions: map<string, Option<nat>>
    var ownerRefs: map<nat, nat>

    ghost function View(): Registry
      reads this
    {
      Registry(sessions, ownerRefs)
    }

    constructor ()
      ensures View() == Registry(map[], map[])
    {
      sessions, ownerRefs := map[], map[];
    }

    method RetainOwner(owner: Option<nat>)
      modifies this`ownerRefs
      ensures ownerRefs == Retain(old(ownerRefs), owner)
    {
      if owner.None? { return; }
      var count := if owner.value in ownerRefs then ownerRefs[owner.value] else 0;
      ownerRefs := ownerRefs[owner.value := count + 1];
    }

    /** The section `create` and `add` share. */
    method RegisterSession(sid: string, owner: Option<nat>) returns (ok: bool)
      modifies this
      ensures ok <==> sid !in old(sessions)
      ensures View() == if ok then Registry(old(sessions)[sid := owner], Retain(old(ownerRefs), owner)) else old(View())
    {
      if sid in sessions { return false; }
      sessions := sessions[sid := owner];
      RetainOwner(owner);
      return true;
    }

    /** `close`: pop the session. */
    method PopSession(sid: string) returns (owner: Option<Option<nat>>)
      modifies this`sessions
      ensures owner == if sid in old(sessions) then Some(old(sessions)[sid]) else None
      ensures sessions == old(sessions) - {sid}
    {
      if sid !in sessions { return None; }
      owner := Some(sessions[sid]);
      sessions := sessions - {sid};
    }

    /** `_release_owner`: true when the caller is to close the owner. */
    method ReleaseOne(o: nat) returns (last: bool)
      modifies this`ownerRefs
      ensures (ownerRefs, last) == Release(old(ownerRefs), o)
    {
      if o !in ownerRefs { return false; }
      if ownerRefs[o] > 1 {
        ownerRefs := ownerRefs[o := ownerRefs[o] - 1];
        return false;
      }
      ownerRefs := ownerRefs - {o};
      return true;
    }

    /** `_shutdown_impl`: take all sessions and owners. */
    method TakeAll() returns (taken: map<string, Option<nat>>, owners: set<nat>)
      modifies this
      ensures taken == old(sessions) && owners == old(ownerRefs).Keys
      ensures View() == Registry(map[], map[])
    {
      taken, owners := sessions, ownerRefs.Keys;
      sessions, ownerRefs := map[], map[];
    }
  }
}
