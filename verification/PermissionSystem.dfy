/** Permission requests racing with answers, timeouts and `cancel_session`
    (src/synapse/acp/permissions.py:49-141), over all interleavings.  No lock section contains an await, so
    the lock is never contended and everything from the policy lookup to the registration of an entry is one
    uninterrupted stretch; the later lock sections are separate steps. */
module PermissionSystem {
  import opened Wrappers
  import opened Permissions

  /** The client's call; `Cancelling` has been asked to stop and has not noticed yet. */
  datatype Rpc = Running | Cancelling | Answered(outcome: Outcome) | Aborted | Broken

  datatype Ending = Decided(decision: Decision) | ErrorRaised | CancelRaised

  /** Where `resolve` stands: awaiting the client, before the policy section, before the settle section,
      before the removal, returned. */
  datatype Pc =
    | Waiting
    | Storing(decision: Decision)
    | Settling(decision: Decision)
    | Leaving(ending: Ending)
    | Done(ending: Ending)

  /** `marked` records that `cancel_session` met the request before its settle section. */
  datatype Request = Request(
    session: string,
    permissionId: string,
    action: string,
    options: seq<PermissionOption>,
    registered: bool,
    state: EntryState,
    pc: Pc,
    rpc: Rpc,
    marked: bool)

  /** `consents` holds every always-answer a client has given since the last cancellation of its session. */
  datatype State = State(
    fold: Folding,
    requests: seq<Request>,
    pending: map<string, nat>,
    policies: map<(string, string), string>,
    consents: set<(string, string, string)>)

  function Initial(fold: Folding): State {
    State(fold, [], map[], map[], {})
  }

  datatype Step =
    | Begin(session: string, permissionId: string, action: string, options: seq<PermissionOption>)
    | Answer(n: nat, outcome: Outcome)
    | RpcBreaks(n: nat)
    | AbortLands(n: nat)
    | Resume(n: nat)
    | TimeOut(n: nat)
    | ResolverCancelled(n: nat)
    | StoreSection(n: nat)
    | SettleSection(n: nat)
    | RemoveSection(n: nat)
    | CancelSession(session: string)

  predicate Active(r: Request) {
    r.pc.Waiting? || r.pc.Storing? || r.pc.Settling?
  }

  /** The call can still end in any way: a request to stop may come too late or be ignored. */
  predicate IsOpen(rpc: Rpc) {
    rpc.Running? || rpc.Cancelling?
  }

  predicate Enabled(s: State, step: Step) {
    match step
    case Begin(_, _, _, _) => true
    case CancelSession(_) => true
    case Answer(n, _) => n < |s.requests| && IsOpen(s.requests[n].rpc) && s.requests[n].pc.Waiting?
    case RpcBreaks(n) => n < |s.requests| && IsOpen(s.requests[n].rpc) && s.requests[n].pc.Waiting?
    case AbortLands(n) => n < |s.requests| && s.requests[n].rpc.Cancelling? && s.requests[n].pc.Waiting?
    case Resume(n) => n < |s.requests| && s.requests[n].pc.Waiting? && !IsOpen(s.requests[n].rpc)
    case TimeOut(n) => n < |s.requests| && s.requests[n].pc.Waiting?
    case ResolverCancelled(n) => n < |s.requests| && s.requests[n].pc.Waiting?
    case StoreSection(n) => n < |s.requests| && s.requests[n].pc.Storing?
    case SettleSection(n) => n < |s.requests| && s.requests[n].pc.Settling?
    case RemoveSection(n) => n < |s.requests| && s.requests[n].pc.Leaving?
  }

  function Key(fold: Folding, r: Request): (string, string) {
    (r.session, PolicyKey(fold, r.action))
  }

  /** What the client's answer amounts to as a policy. */
  function Consent(fold: Folding, r: Request, outcome: Outcome): Option<(string, string, string)> {
    match DecodeOutcome(outcome, r.options)
    case Err(_) => None
    case Ok(d) => if IsAlways(d.kind) then Some((r.session, PolicyKey(fold, r.action), d.kind)) else None
  }

  function SetReq(s: State, n: nat, r: Request): State
    requires n < |s.requests|
  {
    s.(requests := s.requests[n := r])
  }

  /** `except asyncio.CancelledError` */
  function OnCancelled(r: Request): Request {
    r.(state := Marked,
       rpc := if IsOpen(r.rpc) then Aborted else r.rpc,
       pc := Leaving(if r.state.Marked? then Decided(CANCELLED) else CancelRaised))
  }

  function OnResume(r: Request): Request {
    match r.rpc
    case Answered(outcome) =>
      (match DecodeOutcome(outcome, r.options)
       case Ok(d) => r.(pc := if IsAlways(d.kind) then Storing(d) else Settling(d))
       case Err(_) => r.(state := Failed, pc := Leaving(ErrorRaised)))
    case Aborted => OnCancelled(r)
    case _ => r.(state := Failed, pc := Leaving(ErrorRaised))
  }

  /** What `cancel_session` does to one entry. */
  function Mark(r: Request): Request {
    r.(state := Marked,
       rpc := if r.rpc.Running? then Cancelling else r.rpc,
       marked := r.marked || Active(r))
  }

  predicate Hit(s: State, n: nat, session: string)
    requires n < |s.requests|
  {
    s.requests[n].session == session && n in s.pending.Values
  }

  function Apply(s: State, step: Step): State
    requires Enabled(s, step)
  {
    match step
    case Begin(session, permissionId, action, options) =>
      var blank := Request(session, permissionId, action, options, false, Pending, Waiting, Aborted, false);
      var key := (session, PolicyKey(s.fold, action));
      if key in s.policies then
        s.(requests := s.requests + [blank.(pc := Done(Decided(Decision(s.policies[key], Some(s.policies[key])))))])
      else if permissionId in s.pending then
        s.(requests := s.requests + [blank.(pc := Done(ErrorRaised))])
      else
        s.(requests := s.requests + [blank.(registered := true, rpc := Running)],
           pending := Registered(s.pending, permissionId, |s.requests|))
    case Answer(n, outcome) =>
      var r := s.requests[n];
      var c := Consent(s.fold, r, outcome);
      SetReq(s, n, r.(rpc := Answered(outcome))).(consents := if c.Some? then s.consents + {c.value} else s.consents)
    case RpcBreaks(n) => SetReq(s, n, s.requests[n].(rpc := Broken))
    case AbortLands(n) => SetReq(s, n, s.requests[n].(rpc := Aborted))
    case Resume(n) => SetReq(s, n, OnResume(s.requests[n]))
    case TimeOut(n) => SetReq(s, n, s.requests[n].(state := TimedOut, rpc := Aborted, pc := Leaving(ErrorRaised)))
    case ResolverCancelled(n) => SetReq(s, n, OnCancelled(s.requests[n]))
    case StoreSection(n) =>
      var r := s.requests[n];
      SetReq(s, n, r.(pc := Settling(r.pc.decision))).
      (policies := WithPolicy(s.policies, r.state, Key(s.fold, r), r.pc.decision.kind))
    case SettleSection(n) =>
      var r := s.requests[n];
      SetReq(s, n, r.(state := SettledState(r.state), pc := Leaving(Decided(SettledDecision(r.state, r.pc.decision)))))
    case RemoveSection(n) =>
      var r := s.requests[n];
      SetReq(s, n, r.(pc := Done(r.pc.ending))).(pending := s.pending - {r.permissionId})
    case CancelSession(session) =>
      State(s.fold,
            seq(|s.requests|, n requires 0 <= n < |s.requests| =>
                  if Hit(s, n, session) then Mark(s.requests[n]) else s.requests[n]),
            s.pending,
            PoliciesWithout(s.policies, session),
            set c | c in s.consents && c.0 != session)
  }

  function Do(s: State, step: Step): State {
    if Enabled(s, step) then Apply(s, step) else s
  }

  function Exec(s: State, steps: seq<Step>): State {
    if steps == [] then s else Do(Exec(s, steps[..|steps| - 1]), steps[|steps| - 1])
  }

  // ---------------------------------------------------------------------------------------------
  // The inductive invariant

  /** The client itself chose this decision. */
  predicate ChosenByClient(r: Request, d: Decision) {
    r.rpc.Answered? && DecodeOutcome(r.rpc.outcome, r.options) == Ok(d)
  }

  /** How a request that went to the client may end: a decision is the client's own unless the request was cancelled,
      an error means that there was no usable answer in time. */
  ghost predicate EndingOk(r: Request, ending: Ending) {
    match ending
    case Decided(d) => if r.marked then d == CANCELLED else ChosenByClient(r, d)
    case ErrorRaised =>
      r.rpc.Aborted? || r.rpc.Broken? || (r.rpc.Answered? && DecodeOutcome(r.rpc.outcome, r.options).Err?)
    case CancelRaised => !r.marked
  }

  ghost predicate RequestOk(s: State, r: Request) {
    && (!r.registered ==> r.pc.Done? && !r.marked)
    && (r.registered && Active(r) ==> r.state == if r.marked then Marked else Pending)
    && (r.registered && (r.pc.Leaving? || r.pc.Done?) ==> EndingOk(r, r.pc.ending))
    && (r.registered && r.pc.Waiting? && (r.rpc.Cancelling? || r.rpc.Aborted?) ==> r.marked)
    && (r.pc.Storing? || r.pc.Settling? ==> ChosenByClient(r, r.pc.decision))
    && (r.pc.Storing? ==> IsAlways(r.pc.decision.kind))
    && (r.registered && r.state.Pending? && (r.pc.Waiting? || r.pc.Storing?) && r.rpc.Answered? ==>
          var c := Consent(s.fold, r, r.rpc.outcome); c.Some? ==> c.value in s.consents)
  }

  ghost predicate RegistryOk(s: State) {
    && (forall p :: p in s.pending ==> s.pending[p] < |s.requests|)
    && (forall p :: p in s.pending ==>
          var r := s.requests[s.pending[p]]; r.permissionId == p && r.registered && !r.pc.Done?)
    && (forall n :: 0 <= n < |s.requests| && s.requests[n].registered && !s.requests[n].pc.Done? ==>
          s.requests[n].permissionId in s.pending && s.pending[s.requests[n].permissionId] == n)
  }

  ghost predicate PoliciesOk(s: State) {
    forall k :: k in s.policies ==> (k.0, k.1, s.policies[k]) in s.consents
  }

  ghost predicate Inv(s: State) {
    RegistryOk(s) && PoliciesOk(s) && forall n :: 0 <= n < |s.requests| ==> RequestOk(s, s.requests[n])
  }

  lemma {:induction false} StepKeepsRegistry(s: State, step: Step)
    requires RegistryOk(s) && Enabled(s, step)
    requires forall n :: 0 <= n < |s.requests| ==> RequestOk(s, s.requests[n])
    ensures RegistryOk(Apply(s, step))
  {
    match step
    case Begin(_, _, _, _) => BeginKeepsRegistry(s, step);
    case CancelSession(session) => CancelKeepsRegistry(s, session);
    case RemoveSection(n) => assert RequestOk(s, s.requests[n]); RemoveKeepsRegistry(s, n);
    case _ =>
      assert RequestOk(s, s.requests[step.n]);
      SetKeepsRegistry(s, step.n, Apply(s, step));
  }

  lemma BeginKeepsRegistry(s: State, step: Step)
    requires RegistryOk(s) && step.Begin?
    ensures RegistryOk(Apply(s, step))
  {
  }

  lemma SetKeepsRegistry(s: State, n: nat, t: State)
    requires RegistryOk(s) && n < |s.requests| && t.pending == s.pending && |t.requests| == |s.requests|
    requires forall i :: 0 <= i < |s.requests| && i != n ==> t.requests[i] == s.requests[i]
    requires var q, r := s.requests[n], t.requests[n];
             q.permissionId == r.permissionId && q.registered == r.registered && (r.pc.Done? <==> q.pc.Done?)
    ensures RegistryOk(t)
  {
  }

  lemma RemoveKeepsRegistry(s: State, n: nat)
    requires RegistryOk(s) && Enabled(s, RemoveSection(n)) && s.requests[n].registered
    ensures RegistryOk(Apply(s, RemoveSection(n)))
  {
    var t := Apply(s, RemoveSection(n));
    assert s.pending[s.requests[n].permissionId] == n;
  }

  lemma CancelKeepsRegistry(s: State, session: string)
    requires RegistryOk(s)
    ensures RegistryOk(Apply(s, CancelSession(session)))
  {
    var t := Apply(s, CancelSession(session));
    forall n | 0 <= n < |s.requests|
      ensures t.requests[n].permissionId == s.requests[n].permissionId
      ensures t.requests[n].registered == s.requests[n].registered && t.requests[n].pc == s.requests[n].pc
    {
    }
  }

  lemma {:induction false} StepKeepsRequests(s: State, step: Step)
    requires Inv(s) && Enabled(s, step)
    ensures forall n :: 0 <= n < |Apply(s, step).requests| ==> RequestOk(Apply(s, step), Apply(s, step).requests[n])
  {
    var t := Apply(s, step);
    forall n | 0 <= n < |t.requests|
      ensures RequestOk(t, t.requests[n])
    {
      if step.CancelSession? {
        CancelKeepsRequest(s, step.session, n);
      } else if n < |s.requests| {
        assert RequestOk(s, s.requests[n]);
        if step.Begin? || step.n != n { RequestStaysOk(s, t, s.requests[n]); } else { TouchedKeeps(s, step); }
      }
    }
  }

  lemma RequestStaysOk(s: State, t: State, r: Request)
    requires RequestOk(s, r) && s.consents <= t.consents && t.fold == s.fold
    ensures RequestOk(t, r)
  {
  }

  /** The request a step works on. */
  lemma TouchedKeeps(s: State, step: Step)
    requires Enabled(s, step) && !step.Begin? && !step.CancelSession? && RequestOk(s, s.requests[step.n])
    ensures RequestOk(Apply(s, step), Apply(s, step).requests[step.n])
  {
  }

  lemma CancelKeepsRequest(s: State, session: string, n: nat)
    requires Inv(s) && n < |s.requests|
    ensures var t := Apply(s, CancelSession(session)); RequestOk(t, t.requests[n])
  {
    var r := s.requests[n];
    assert RequestOk(s, r);
    if r.session == session && r.registered && !r.pc.Done? {
      assert s.pending[r.permissionId] == n;
      assert Hit(s, n, session);
    }
  }

  lemma {:induction false} StepKeepsPolicies(s: State, step: Step)
    requires Inv(s) && Enabled(s, step)
    ensures PoliciesOk(Apply(s, step))
  {
    if step.StoreSection? {
      var r := s.requests[step.n];
      assert RequestOk(s, r);
    }
  }

  lemma {:induction false} RunKeepsInv(fold: Folding, steps: seq<Step>)
    ensures Inv(Exec(Initial(fold), steps))
  {
    if steps != [] {
      var before := steps[..|steps| - 1];
      RunKeepsInv(fold, before);
      var s, step := Exec(Initial(fold), before), steps[|steps| - 1];
      if Enabled(s, step) {
        StepKeepsRegistry(s, step);
        StepKeepsRequests(s, step);
        StepKeepsPolicies(s, step);
      }
    }
  }

  // ---------------------------------------------------------------------------------------------
  // Main results

  /** A request that `cancel_session` meets before its settle section never returns an allow, nor any other
      choice of the client: it is cancelled or raises. */
  lemma {:induction false} MarkedNeverAllows(fold: Folding, steps: seq<Step>, n: nat)
    requires n < |Exec(Initial(fold), steps).requests|
    ensures var r := Exec(Initial(fold), steps).requests[n];
            r.marked && r.pc.Done? ==> r.pc.ending == Decided(CANCELLED) || r.pc.ending == ErrorRaised
  {
    RunKeepsInv(fold, steps);
    assert RequestOk(Exec(Initial(fold), steps), Exec(Initial(fold), steps).requests[n]);
  }

  /** Every entry of the session that has not reached its settle section is marked, and its client call is asked to
      stop if it still runs. */
  lemma {:induction false} CancelMarksAllActive(fold: Folding, steps: seq<Step>, session: string, n: nat)
    requires n < |Exec(Initial(fold), steps).requests|
    requires var r := Exec(Initial(fold), steps).requests[n]; r.session == session && Active(r)
    ensures var r := Apply(Exec(Initial(fold), steps), CancelSession(session)).requests[n]; r.marked && !r.rpc.Running?
  {
    RunKeepsInv(fold, steps);
    var s := Exec(Initial(fold), steps);
    assert RequestOk(s, s.requests[n]);
    assert s.pending[s.requests[n].permissionId] == n;
    assert Hit(s, n, session);
  }

  /** Cancelling a session leaves everything of other sessions as it is. */
  lemma {:induction false} CancelSparesOthers(fold: Folding, steps: seq<Step>, session: string, n: nat)
    requires n < |Exec(Initial(fold), steps).requests|
    requires Exec(Initial(fold), steps).requests[n].session != session
    ensures var s, t := Exec(Initial(fold), steps), Exec(Initial(fold), steps + [CancelSession(session)]);
            && |t.requests| == |s.requests| && t.requests[n] == s.requests[n] && t.pending == s.pending
            && forall c: (string, string, string) :: c.0 != session ==> (Holds(t, c) <==> Holds(s, c))
  {
    ExecUnrolls(fold, steps, CancelSession(session));
  }

  /** How every request that went to the client ends: with the client's decision, cancelled by `cancel_session` and
      only then, with an error for want of a usable answer, or cancelled from outside. */
  lemma {:induction false} EndingIsExplained(fold: Folding, steps: seq<Step>, n: nat)
    requires n < |Exec(Initial(fold), steps).requests|
    ensures var r := Exec(Initial(fold), steps).requests[n];
            r.registered && r.pc.Done? ==> EndingOk(r, r.pc.ending)
  {
    RunKeepsInv(fold, steps);
    assert RequestOk(Exec(Initial(fold), steps), Exec(Initial(fold), steps).requests[n]);
  }

  /** At step `i` a client of session `c.0` answers `c.2` for an action with key `c.1`. */
  ghost predicate GivenAt(fold: Folding, steps: seq<Step>, i: nat, c: (string, string, string))
    requires i < |steps|
  {
    var s, step := Exec(Initial(fold), steps[..i]), steps[i];
    step.Answer? && Enabled(s, step) && Consent(s.fold, s.requests[step.n], step.outcome) == Some(c)
  }

  ghost predicate NoCancelAfter(steps: seq<Step>, i: nat, session: string) {
    forall j :: i < j < |steps| ==> steps[j] != CancelSession(session)
  }

  ghost predicate GivenSinceCancel(fold: Folding, steps: seq<Step>, c: (string, string, string)) {
    exists i :: 0 <= i < |steps| && GivenAt(fold, steps, i, c) && NoCancelAfter(steps, i, c.0)
  }

  /** Where a consent can come from in one step. */
  lemma ConsentOrigin(s: State, step: Step, c: (string, string, string))
    requires c in Do(s, step).consents
    ensures || (step.Answer? && Enabled(s, step) && Consent(s.fold, s.requests[step.n], step.outcome) == Some(c))
            || (c in s.consents && step != CancelSession(c.0))
  {
  }

  lemma {:induction false} ConsentsAreGiven(fold: Folding, steps: seq<Step>, c: (string, string, string))
    requires c in Exec(Initial(fold), steps).consents
    ensures GivenSinceCancel(fold, steps, c)
  {
    var n := |steps| - 1;
    var before := steps[..n];
    ConsentOrigin(Exec(Initial(fold), before), steps[n], c);
    if GivenAt(fold, steps, n, c) {
    } else {
      ConsentsAreGiven(fold, before, c);
      GivenEarlier(fold, steps, c);
    }
  }

  lemma GivenAtStays(fold: Folding, before: seq<Step>, steps: seq<Step>, i: nat, c: (string, string, string))
    requires before <= steps && i < |before| && GivenAt(fold, before, i, c)
    ensures GivenAt(fold, steps, i, c)
  {
    assert before[..i] == steps[..i];
  }

  lemma GivenEarlier(fold: Folding, steps: seq<Step>, c: (string, string, string))
    requires steps != [] && steps[|steps| - 1] != CancelSession(c.0)
    requires GivenSinceCancel(fold, steps[..|steps| - 1], c)
    ensures GivenSinceCancel(fold, steps, c)
  {
    var before := steps[..|steps| - 1];
    var i :| 0 <= i < |before| && GivenAt(fold, before, i, c) && NoCancelAfter(before, i, c.0);
    GivenAtStays(fold, before, steps, i, c);
    NoCancelStays(steps, i, c.0);
  }

  lemma NoCancelStays(steps: seq<Step>, i: nat, session: string)
    requires steps != [] && steps[|steps| - 1] != CancelSession(session)
    requires NoCancelAfter(steps[..|steps| - 1], i, session)
    ensures NoCancelAfter(steps, i, session)
  {
    var before := steps[..|steps| - 1];
    assert forall j :: 0 <= j < |before| ==> steps[j] == before[j];
  }

  /** Every stored policy of a session was chosen by a client of that very session, for the same normalised
      action, since the session was last cancelled. */
  lemma {:induction false} PoliciesAreChosen(fold: Folding, steps: seq<Step>, session: string, key: string)
    requires (session, key) in Exec(Initial(fold), steps).policies
    ensures GivenSinceCancel(fold, steps, (session, key, Exec(Initial(fold), steps).policies[(session, key)]))
  {
    RunKeepsInv(fold, steps);
    ConsentsAreGiven(fold, steps, (session, key, Exec(Initial(fold), steps).policies[(session, key)]));
  }

  /** A duplicate id fails on its own and leaves the pending original, and everything else, untouched. */
  lemma {:induction false} DuplicateLeavesOriginal(fold: Folding, steps: seq<Step>, session: string, id: string,
                                                   action: string, options: seq<PermissionOption>)
    requires var s := Exec(Initial(fold), steps); id in s.pending && (session, PolicyKey(s.fold, action)) !in s.policies
    ensures var s := Exec(Initial(fold), steps);
            var t := Exec(Initial(fold), steps + [Begin(session, id, action, options)]);
            && t.pending == s.pending && t.policies == s.policies
            && t.requests[..|s.requests|] == s.requests && |t.requests| == |s.requests| + 1
            && t.requests[|s.requests|].pc == Done(ErrorRaised)
  {
    assert (steps + [Begin(session, id, action, options)])[..|steps|] == steps;
  }

  /** Leaving removes exactly the request's own entry. */
  lemma {:induction false} RemoveTakesOwnEntry(fold: Folding, steps: seq<Step>, n: nat)
    requires Enabled(Exec(Initial(fold), steps), RemoveSection(n))
    ensures var s := Exec(Initial(fold), steps);
            var t := Apply(s, RemoveSection(n));
            var id := s.requests[n].permissionId;
            && id in s.pending && s.pending[id] == n
            && n !in t.pending.Values
            && t.pending.Keys == s.pending.Keys - {id}
            && forall p :: p in t.pending ==> t.pending[p] == s.pending[p]
  {
    RunKeepsInv(fold, steps);
    var s := Exec(Initial(fold), steps);
    assert RequestOk(s, s.requests[n]);
  }

  // ---------------------------------------------------------------------------------------------
  // The policy table as the history of the run

  /** At step `i` the always-answer `c.2` of a request of session `c.0` with key `c.1` is put in the table: its policy
      section comes before any cancellation. */
  ghost predicate StoredAt(fold: Folding, steps: seq<Step>, i: nat, c: (string, string, string))
    requires i < |steps|
  {
    var s, step := Exec(Initial(fold), steps[..i]), steps[i];
    step.StoreSection? && Enabled(s, step) &&
    var r := s.requests[step.n];
    r.state == Pending && c == (r.session, PolicyKey(fold, r.action), r.pc.decision.kind)
  }

  /** Nothing after step `i` takes it back: no cancellation of the session and no later answer for the same key. */
  ghost predicate StandsAfter(fold: Folding, steps: seq<Step>, i: nat, c: (string, string, string)) {
    && NoCancelAfter(steps, i, c.0)
    && forall j: nat, kind :: i < j < |steps| ==> !StoredAt(fold, steps, j, (c.0, c.1, kind))
  }

  ghost predicate Stands(fold: Folding, steps: seq<Step>, c: (string, string, string)) {
    exists i: nat :: i < |steps| && StoredAt(fold, steps, i, c) && StandsAfter(fold, steps, i, c)
  }

  lemma {:induction false} FoldStays(fold: Folding, steps: seq<Step>)
    ensures Exec(Initial(fold), steps).fold == fold
  {
    if steps != [] { FoldStays(fold, steps[..|steps| - 1]); }
  }

  ghost predicate Holds(s: State, c: (string, string, string)) {
    (c.0, c.1) in s.policies && s.policies[(c.0, c.1)] == c.2
  }

  /** What one step does to one entry of the table. */
  lemma PolicyStep(fold: Folding, steps: seq<Step>, c: (string, string, string))
    requires steps != []
    ensures var n := |steps| - 1;
            var s, t := Exec(Initial(fold), steps[..n]), Exec(Initial(fold), steps);
            && (StoredAt(fold, steps, n, c) ==> Holds(t, c))
            && (!StoredAt(fold, steps, n, c) && Holds(t, c) ==>
                  Holds(s, c) && steps[n] != CancelSession(c.0) &&
                  forall kind :: !StoredAt(fold, steps, n, (c.0, c.1, kind)))
            && (Holds(s, c) && !Holds(t, c) ==>
                  steps[n] == CancelSession(c.0) || exists kind :: StoredAt(fold, steps, n, (c.0, c.1, kind)))
  {
    var n := |steps| - 1;
    var s, step := Exec(Initial(fold), steps[..n]), steps[n];
    FoldStays(fold, steps[..n]);
    PoliciesStep(s, step);
    if step.StoreSection? && Enabled(s, step) && s.requests[step.n].state == Pending {
      var r := s.requests[step.n];
      assert StoredAt(fold, steps, n, (r.session, PolicyKey(fold, r.action), r.pc.decision.kind));
    }
  }

  /** What one step does to the table. */
  lemma PoliciesStep(s: State, step: Step)
    ensures Do(s, step).policies ==
            if step.StoreSection? && Enabled(s, step) && s.requests[step.n].state == Pending
            then s.policies[Key(s.fold, s.requests[step.n]) := s.requests[step.n].pc.decision.kind]
            else if step.CancelSession? then PoliciesWithout(s.policies, step.session)
            else s.policies
  {
  }

  lemma StoredAtStays(fold: Folding, before: seq<Step>, steps: seq<Step>, i: nat, c: (string, string, string))
    requires before <= steps && i < |before|
    ensures StoredAt(fold, before, i, c) <==> StoredAt(fold, steps, i, c)
  {
    assert before[..i] == steps[..i];
  }

  /** An entry is in the table exactly when an answer that stands says so. */
  lemma {:induction false} PoliciesAreStanding(fold: Folding, steps: seq<Step>, c: (string, string, string))
    ensures Holds(Exec(Initial(fold), steps), c) <==> Stands(fold, steps, c)
  {
    if steps != [] {
      var n := |steps| - 1;
      var before := steps[..n];
      PoliciesAreStanding(fold, before, c);
      PolicyStep(fold, steps, c);
      if StoredAt(fold, steps, n, c) {
        assert StandsAfter(fold, steps, n, c);
      } else if Holds(Exec(Initial(fold), steps), c) {
        StandsOn(fold, steps, c);
      } else if Stands(fold, steps, c) {
        StoodBefore(fold, steps, c);
      }
    }
  }

  lemma StandsOn(fold: Folding, steps: seq<Step>, c: (string, string, string))
    requires steps != [] && Stands(fold, steps[..|steps| - 1], c)
    requires var n := |steps| - 1;
             steps[n] != CancelSession(c.0) && forall kind :: !StoredAt(fold, steps, n, (c.0, c.1, kind))
    ensures Stands(fold, steps, c)
  {
    var before := steps[..|steps| - 1];
    var i: nat :| i < |before| && StoredAt(fold, before, i, c) && StandsAfter(fold, before, i, c);
    StoredAtStays(fold, before, steps, i, c);
    StandsAfterMore(fold, steps, i, c);
  }

  lemma StandsAfterMore(fold: Folding, steps: seq<Step>, i: nat, c: (string, string, string))
    requires steps != [] && StandsAfter(fold, steps[..|steps| - 1], i, c)
    requires var n := |steps| - 1;
             steps[n] != CancelSession(c.0) && forall kind :: !StoredAt(fold, steps, n, (c.0, c.1, kind))
    ensures StandsAfter(fold, steps, i, c)
  {
    var before := steps[..|steps| - 1];
    NoCancelStays(steps, i, c.0);
    forall j: nat, kind | i < j < |steps|
      ensures !StoredAt(fold, steps, j, (c.0, c.1, kind))
    {
      if j < |before| { StoredAtStays(fold, before, steps, j, (c.0, c.1, kind)); }
    }
  }

  lemma StoodBefore(fold: Folding, steps: seq<Step>, c: (string, string, string))
    requires steps != [] && Stands(fold, steps, c) && !StoredAt(fold, steps, |steps| - 1, c)
    ensures var n := |steps| - 1;
            && Stands(fold, steps[..n], c) && steps[n] != CancelSession(c.0)
            && forall kind :: !StoredAt(fold, steps, n, (c.0, c.1, kind))
  {
    var n := |steps| - 1;
    var before := steps[..n];
    var i: nat :| i < |steps| && StoredAt(fold, steps, i, c) && StandsAfter(fold, steps, i, c);
    StoredAtStays(fold, before, steps, i, c);
    assert forall j :: 0 <= j < n ==> before[j] == steps[j];
    forall j: nat, kind | i < j < n
      ensures !StoredAt(fold, before, j, (c.0, c.1, kind))
    {
      StoredAtStays(fold, before, steps, j, (c.0, c.1, kind));
    }
    assert StandsAfter(fold, before, i, c);
  }

  /** A call of `resolve` is answered at once, without asking the client, exactly when an answer stands for its session
      and action, and then with that very answer. */
  lemma {:induction false} AnsweredFromTableIff(fold: Folding, steps: seq<Step>, begin: Step, kind: string)
    requires begin.Begin?
    ensures var s, t := Exec(Initial(fold), steps), Exec(Initial(fold), steps + [begin]);
            && |t.requests| == |s.requests| + 1
            && (t.requests[|s.requests|].pc == Done(Decided(Decision(kind, Some(kind)))) <==>
                Stands(fold, steps, (begin.session, PolicyKey(fold, begin.action), kind)))
  {
    assert (steps + [begin])[..|steps|] == steps;
    FoldStays(fold, steps);
    PoliciesAreStanding(fold, steps, (begin.session, PolicyKey(fold, begin.action), kind));
  }

  /** The client is asked exactly when no answer stands and no unfinished request has the same id. */
  lemma {:induction false} ClientAskedIff(fold: Folding, steps: seq<Step>, begin: Step)
    requires begin.Begin?
    ensures var s, t := Exec(Initial(fold), steps), Exec(Initial(fold), steps + [begin]);
            && |t.requests| == |s.requests| + 1
            && (t.requests[|s.requests|].pc.Waiting? <==>
                  && (forall kind :: !Stands(fold, steps, (begin.session, PolicyKey(fold, begin.action), kind)))
                  && (forall m :: 0 <= m < |s.requests| && s.requests[m].registered && !s.requests[m].pc.Done? ==>
                        s.requests[m].permissionId != begin.permissionId))
  {
    assert (steps + [begin])[..|steps|] == steps;
    FoldStays(fold, steps);
    RunKeepsInv(fold, steps);
    var s, key := Exec(Initial(fold), steps), PolicyKey(fold, begin.action);
    forall kind
      ensures Holds(s, (begin.session, key, kind)) <==> Stands(fold, steps, (begin.session, key, kind))
    {
      PoliciesAreStanding(fold, steps, (begin.session, key, kind));
    }
    if (begin.session, key) in s.policies { assert Holds(s, (begin.session, key, s.policies[(begin.session, key)])); }
    if begin.permissionId in s.pending { assert s.pending[begin.permissionId] < |s.requests|; }
  }

  /** A request that waits for the client can time out at any moment; it raises and its id is free again. */
  lemma {:induction false} WaitCanEnd(fold: Folding, steps: seq<Step>, n: nat)
    requires var s := Exec(Initial(fold), steps); n < |s.requests| && s.requests[n].pc.Waiting?
    ensures var t := Exec(Initial(fold), steps + [TimeOut(n)] + [RemoveSection(n)]);
            && n < |t.requests| && t.requests[n].pc == Done(ErrorRaised)
            && t.requests[n].permissionId !in t.pending
  {
    ExecUnrolls(fold, steps, TimeOut(n));
    ExecUnrolls(fold, steps + [TimeOut(n)], RemoveSection(n));
  }

  /** A usable answer is returned and an always-answer remembered, unless the session has been cancelled meanwhile. */
  lemma {:induction false} AnswerIsReturned(fold: Folding, steps: seq<Step>, n: nat, d: Decision)
    requires var s := Exec(Initial(fold), steps);
             n < |s.requests| && s.requests[n].pc.Waiting? && ChosenByClient(s.requests[n], d)
    ensures var s := Exec(Initial(fold), steps);
            var t := Exec(Initial(fold), steps + [Resume(n)] + [StoreSection(n)] + [SettleSection(n)] +
                                         [RemoveSection(n)]);
            var r := s.requests[n];
            && n < |t.requests| && t.requests[n].pc == Done(Decided(if r.marked then CANCELLED else d))
            && t.policies == if !r.marked && (d.kind == "allow_always" || d.kind == "reject_always")
                             then s.policies[(r.session, PolicyKey(fold, r.action)) := d.kind] else s.policies
  {
    RunKeepsInv(fold, steps);
    FoldStays(fold, steps);
    AnswerGoesThrough(Exec(Initial(fold), steps), n, d);
    var more := steps + [Resume(n)];
    ExecUnrolls(fold, steps, Resume(n));
    ExecUnrolls(fold, more, StoreSection(n));
    ExecUnrolls(fold, more + [StoreSection(n)], SettleSection(n));
    ExecUnrolls(fold, more + [StoreSection(n)] + [SettleSection(n)], RemoveSection(n));
  }

  /** What the answered request does, section by section. */
  lemma AnswerGoesThrough(s: State, n: nat, d: Decision)
    requires n < |s.requests| && s.requests[n].pc.Waiting? && ChosenByClient(s.requests[n], d)
    requires RequestOk(s, s.requests[n])
    ensures var r := s.requests[n];
            var t := Do(Do(Do(Do(s, Resume(n)), StoreSection(n)), SettleSection(n)), RemoveSection(n));
            && n < |t.requests| && t.requests[n].pc == Done(Decided(if r.marked then CANCELLED else d))
            && t.policies == if !r.marked && (d.kind == "allow_always" || d.kind == "reject_always")
                             then s.policies[Key(s.fold, r) := d.kind] else s.policies
  {
    var r := s.requests[n];
    var resumed := Do(s, Resume(n));
    assert resumed == SetReq(s, n, r.(pc := if IsAlways(d.kind) then Storing(d) else Settling(d)));
    var stored := Do(resumed, StoreSection(n));
    assert n < |stored.requests| && stored.requests[n] == r.(pc := Settling(d));
    assert stored.policies == if IsAlways(d.kind) then WithPolicy(s.policies, r.state, Key(s.fold, r), d.kind)
                              else s.policies;
    SettleEnds(stored, n, d);
  }

  lemma SettleEnds(s: State, n: nat, d: Decision)
    requires n < |s.requests| && s.requests[n].pc == Settling(d)
    ensures var t := Do(Do(s, SettleSection(n)), RemoveSection(n));
            && n < |t.requests| && t.requests[n].pc == Done(Decided(SettledDecision(s.requests[n].state, d)))
            && t.policies == s.policies
  {
    var settled := Do(s, SettleSection(n));
    assert settled.requests[n].pc == Leaving(Decided(SettledDecision(s.requests[n].state, d)));
  }

  lemma ExecUnrolls(fold: Folding, steps: seq<Step>, step: Step)
    ensures Exec(Initial(fold), steps + [step]) == Do(Exec(Initial(fold), steps), step)
  {
    assert (steps + [step])[..|steps|] == steps;
  }

  /** Request `n` is the call of `resolve` made at step `j`. */
  ghost predicate BegunAt(fold: Folding, steps: seq<Step>, j: nat, n: nat)
    requires j < |steps|
  {
    steps[j].Begin? && |Exec(Initial(fold), steps[..j]).requests| == n
  }

  /** At step `i` the client answers request `n` itself with decision `d`. */
  ghost predicate AnsweredAt(fold: Folding, steps: seq<Step>, i: nat, n: nat, d: Decision)
    requires i < |steps|
  {
    var s, step := Exec(Initial(fold), steps[..i]), steps[i];
    step.Answer? && step.n == n && Enabled(s, step) && DecodeOutcome(step.outcome, s.requests[n].options) == Ok(d)
  }

  ghost predicate WasAnswered(fold: Folding, steps: seq<Step>, n: nat, d: Decision) {
    exists i: nat :: i < |steps| && AnsweredAt(fold, steps, i, n, d)
  }

  /** Before the call that became request `n`, and since its session was last cancelled, a client of that session gave
      `kind` as its always-answer for the same action. */
  ghost predicate WasGranted(fold: Folding, steps: seq<Step>, n: nat, session: string, action: string, kind: string) {
    exists j: nat :: j < |steps| && BegunAt(fold, steps, j, n) &&
      GivenSinceCancel(fold, steps[..j], (session, PolicyKey(fold, action), kind))
  }

  /** What a request that never went to the client has ended with. */
  lemma {:induction false} UnaskedIsGranted(fold: Folding, steps: seq<Step>, n: nat)
    requires n < |Exec(Initial(fold), steps).requests| && !Exec(Initial(fold), steps).requests[n].registered
    ensures var r := Exec(Initial(fold), steps).requests[n];
            r.pc == Done(ErrorRaised) ||
            (r.pc.Done? && r.pc.ending.Decided? &&
             WasGranted(fold, steps, n, r.session, r.action, r.pc.ending.decision.kind))
  {
    var m := |steps| - 1;
    var before := steps[..m];
    var s, t := Exec(Initial(fold), before), Exec(Initial(fold), steps);
    RunKeepsInv(fold, before);
    if n < |s.requests| {
      UnaskedStays(s, steps[m], n);
      UnaskedIsGranted(fold, before, n);
      var r := s.requests[n];
      if r.pc != Done(ErrorRaised) {
        GrantStays(fold, steps, n, r.session, r.action, r.pc.ending.decision.kind);
      }
    } else {
      var r := t.requests[n];
      FoldStays(fold, before);
      UnaskedNow(s, steps[m]);
      assert BegunAt(fold, steps, m, n);
      if r.pc != Done(ErrorRaised) {
        ConsentsAreGiven(fold, before, (r.session, PolicyKey(fold, r.action), r.pc.ending.decision.kind));
      }
    }
  }

  lemma GrantStays(fold: Folding, steps: seq<Step>, n: nat, session: string, action: string, kind: string)
    requires steps != [] && WasGranted(fold, steps[..|steps| - 1], n, session, action, kind)
    ensures WasGranted(fold, steps, n, session, action, kind)
  {
    var before := steps[..|steps| - 1];
    var j: nat :| j < |before| && BegunAt(fold, before, j, n) &&
      GivenSinceCancel(fold, before[..j], (session, PolicyKey(fold, action), kind));
    assert before[..j] == steps[..j];
    assert BegunAt(fold, steps, j, n);
  }

  /** A call that does not ask the client ends with an error or with what the table says. */
  lemma UnaskedNow(s: State, step: Step)
    requires PoliciesOk(s) && |Do(s, step).requests| > |s.requests| && !Do(s, step).requests[|s.requests|].registered
    ensures step.Begin? && |Do(s, step).requests| == |s.requests| + 1
    ensures var r := Do(s, step).requests[|s.requests|];
            r.pc == Done(ErrorRaised) ||
            (r.pc.Done? && r.pc.ending.Decided? &&
             (r.session, PolicyKey(s.fold, r.action), r.pc.ending.decision.kind) in s.consents)
  {
  }

  lemma UnaskedStays(s: State, step: Step, n: nat)
    requires Inv(s) && n < |s.requests| && n < |Do(s, step).requests| && !Do(s, step).requests[n].registered
    ensures var q, r := s.requests[n], Do(s, step).requests[n];
            !q.registered && r.pc == q.pc && r.session == q.session && r.action == q.action
  {
    assert RequestOk(s, s.requests[n]);
  }

  lemma {:induction false} AnswerIsAStep(fold: Folding, steps: seq<Step>, n: nat, d: Decision)
    requires n < |Exec(Initial(fold), steps).requests| && ChosenByClient(Exec(Initial(fold), steps).requests[n], d)
    ensures WasAnswered(fold, steps, n, d)
  {
    var m := |steps| - 1;
    var before := steps[..m];
    var s := Exec(Initial(fold), before);
    if steps[m].Answer? && steps[m].n == n && Enabled(s, steps[m]) {
      assert AnsweredAt(fold, steps, m, n, d);
    } else {
      AnswerWasThere(s, steps[m], n, d);
      AnswerIsAStep(fold, before, n, d);
      var i: nat :| i < m && AnsweredAt(fold, before, i, n, d);
      assert before[..i] == steps[..i];
      assert AnsweredAt(fold, steps, i, n, d);
    }
  }

  lemma AnswerWasThere(s: State, step: Step, n: nat, d: Decision)
    requires n < |Do(s, step).requests| && ChosenByClient(Do(s, step).requests[n], d)
    requires !(step.Answer? && step.n == n && Enabled(s, step))
    ensures n < |s.requests| && ChosenByClient(s.requests[n], d)
  {
  }

  /** There is no default decision: whatever a request ends with, other than a cancellation, was chosen by a client, in
      its answer to that request or, before it and since the session was last cancelled, in an always-answer for the
      same action. */
  lemma {:induction false} DecisionIsChosen(fold: Folding, steps: seq<Step>, n: nat)
    requires n < |Exec(Initial(fold), steps).requests|
    ensures var r := Exec(Initial(fold), steps).requests[n];
            r.pc.Done? && r.pc.ending.Decided? && r.pc.ending != Decided(Decision("cancelled", None)) ==>
              if r.registered then WasAnswered(fold, steps, n, r.pc.ending.decision)
              else WasGranted(fold, steps, n, r.session, r.action, r.pc.ending.decision.kind)
  {
    var r := Exec(Initial(fold), steps).requests[n];
    if r.pc.Done? && r.pc.ending.Decided? && r.pc.ending != Decided(Decision("cancelled", None)) {
      if r.registered {
        EndingIsExplained(fold, steps, n);
        AnswerIsAStep(fold, steps, n, r.pc.ending.decision);
      } else {
        UnaskedIsGranted(fold, steps, n);
      }
    }
  }
}
