/** The drained flag of the event bridge in two steps (src/synapse/acp/events.py:56-84, 117-122): the last decrement
    of the pending counter happens under the lock and the flag is set after it, so a publisher on another thread can
    come in between.  Everything else is as in EventBridgeSystem. */
module EventBridgeRace {
  import Collections
  import opened Wrappers
  import opened EventBridge
  import S = EventBridgeSystem

  /** `loopSets` and `threadSets` are finished decrements whose `set()` is still to come, on the event loop's thread
      and on publishers' threads; `raced` and `stale` are history. */
  datatype State = State(base: S.State, loopSets: bool, threadSets: nat, raced: bool, stale: bool)

  datatype Step = Base(step: S.Step) | LoopSets | ThreadSets

  function Initial(maxPreviewEvents: nat): State {
    State(S.Initial(maxPreviewEvents), false, 0, false, false)
  }

  /** Publishers run on any thread, everything else on the loop's. */
  predicate OnLoop(step: S.Step) {
    !step.Accept? && !step.HandOver? && !step.HandOverFails?
  }

  predicate Enabled(s: State, step: Step) {
    match step
    case Base(x) => S.Enabled(s.base, x) && (OnLoop(x) ==> !s.loopSets)
    case LoopSets => s.loopSets
    case ThreadSets => s.threadSets > 0
  }

  /** The steps that decrement the pending counter. */
  predicate Finishes(s: S.State, x: S.Step)
    requires S.Enabled(s, x)
  {
    match x
    case HandOverFails(_) => true
    case PutTerminal(_) => true
    case RunCallback => s.callbacks[0].Item? && !s.callbacks[0].terminal
    case _ => false
  }

  function SetFlag(s: S.State, flag: bool): S.State {
    s.(bridge := s.bridge.(drained := flag))
  }

  function Apply(s: State, step: Step): State
    requires Enabled(s, step)
  {
    match step
    case LoopSets => s.(base := SetFlag(s.base, true), loopSets := false)
    case ThreadSets => s.(base := SetFlag(s.base, true), threadSets := s.threadSets - 1)
    case Base(x) =>
      var t := S.Apply(s.base, x);
      if Finishes(s.base, x) then
        var last := t.bridge.pending == 0;
        s.(base := SetFlag(t, s.base.bridge.drained),
           loopSets := s.loopSets || (last && OnLoop(x)),
           threadSets := s.threadSets + if last && !OnLoop(x) then 1 else 0)
      else
        s.(base := t,
           raced := s.raced || (x.Accept? && (s.loopSets || s.threadSets > 0)),
           stale := s.stale || (x.SeeDrained? && s.base.bridge.pending != 0))
  }

  function Do(s: State, step: Step): State {
    if Enabled(s, step) then Apply(s, step) else s
  }

  /** A run from here on. */
  function Exec(s: State, steps: seq<Step>): State
    decreases |steps|
  {
    if steps == [] then s else Exec(Do(s, steps[0]), steps[1..])
  }

  // ---------------------------------------------------------------------------------------------
  // As long as `close` has not seen a stale flag this is a run of the one-step system

  /** The state with the flag as it should be. */
  function Abs(s: State): S.State {
    SetFlag(s.base, s.base.bridge.pending == 0)
  }

  predicate PastDrain(s: S.State) {
    s.closer.PuttingSentinel? || s.closer.AwaitingConsumer? || s.closer.Returned?
  }

  ghost predicate Inv(s: State) {
    && (!s.stale ==> S.Inv(Abs(s)))
    && (s.stale ==> PastDrain(s.base))
    && s.base.bridge.capacity > 0
    && (!s.raced && !s.stale ==> FlagRight(s))
  }

  /** The flag a step finds makes no difference to what else it does. */
  lemma FlagOnly(s: S.State, flag: bool, x: S.Step)
    requires S.Enabled(s, x) && S.Enabled(SetFlag(s, flag), x)
    ensures var t, u := S.Apply(s, x), S.Apply(SetFlag(s, flag), x);
            u == SetFlag(t, u.bridge.drained)
  {
    match x
    case RunCallback => CallbackFlag(s, flag);
    case Consume => ConsumeFlag(s, flag);
    case _ =>
  }

  lemma CallbackFlag(s: S.State, flag: bool)
    requires s.callbacks != []
    ensures var t, u := S.Apply(s, S.RunCallback), S.Apply(SetFlag(s, flag), S.RunCallback);
            u == SetFlag(t, u.bridge.drained)
  {
  }

  lemma ConsumeFlag(s: S.State, flag: bool)
    requires s.bridge.queue != []
    ensures S.ConsumeOne(SetFlag(s, flag)) == SetFlag(S.ConsumeOne(s), flag)
  {
    var t := SetFlag(s, flag);
    var first, rest := s.bridge.queue[0], s.bridge.queue[1..];
    assert t.bridge.queue == s.bridge.queue && t.delivered == s.delivered;
    if first.Item? && !first.terminal {
      var (merged, left) := Coalesce(first.env, rest);
      assert S.ConsumeOne(s) ==
             s.(bridge := s.bridge.(queue := left), delivered := s.delivered + [Item(merged, false)]);
    }
  }

  lemma {:induction false} Simulates(s: State, x: S.Step)
    requires Inv(s) && !s.stale && Enabled(s, Base(x)) && (x.SeeDrained? ==> s.base.bridge.pending == 0)
    ensures S.Enabled(Abs(s), x) && Abs(Apply(s, Base(x))) == S.Apply(Abs(s), x)
    ensures S.Inv(Abs(Apply(s, Base(x))))
  {
    AbsEnabled(s, x);
    S.StepKeepsInv(Abs(s), x);
    FlagOnly(s.base, s.base.bridge.pending == 0, x);
    AbsApplied(s, x, S.Apply(Abs(s), x));
  }

  lemma AbsEnabled(s: State, x: S.Step)
    requires S.Enabled(s.base, x) && (x.SeeDrained? ==> s.base.bridge.pending == 0)
    ensures S.Enabled(Abs(s), x)
  {
  }

  lemma AbsApplied(s: State, x: S.Step, u: S.State)
    requires Enabled(s, Base(x)) && u == SetFlag(S.Apply(s.base, x), u.bridge.drained)
    requires u.bridge.drained <==> u.bridge.pending == 0
    ensures Abs(Apply(s, Base(x))) == u
  {
  }

  lemma {:induction false} DoKeepsInv(s: State, step: Step)
    requires Inv(s)
    ensures Inv(Do(s, step))
  {
    if Enabled(s, step) {
      if !step.Base? {
        SetKeeps(s, step);
      } else if s.stale {
        StaleKeeps(s, step.step);
      } else if step.step.SeeDrained? && s.base.bridge.pending != 0 {
        GoesStale(s);
      } else {
        FreshKeeps(s, step.step);
      }
    }
  }

  lemma StaleKeeps(s: State, x: S.Step)
    requires Inv(s) && s.stale && Enabled(s, Base(x))
    ensures Inv(Apply(s, Base(x)))
  {
    PastStays(s.base, x);
    S.DoKeepsCapacity(s.base, x);
  }

  lemma GoesStale(s: State)
    requires Inv(s) && Enabled(s, Base(S.SeeDrained)) && s.base.bridge.pending != 0
    ensures Inv(Apply(s, Base(S.SeeDrained)))
  {
    SeesDrained(s);
    S.DoKeepsCapacity(s.base, S.SeeDrained);
  }

  lemma SetKeeps(s: State, step: Step)
    requires Inv(s) && Enabled(s, step) && !step.Base?
    ensures Inv(Apply(s, step))
  {
    assert Abs(Apply(s, step)) == Abs(s);
  }

  lemma FreshKeeps(s: State, x: S.Step)
    requires Inv(s) && !s.stale && Enabled(s, Base(x)) && (x.SeeDrained? ==> s.base.bridge.pending == 0)
    ensures Inv(Apply(s, Base(x)))
  {
    var t := Apply(s, Base(x));
    assert !t.stale && t.base.bridge.capacity > 0 by { StaysFresh(s, x); }
    assert S.Inv(Abs(t)) by { Simulates(s, x); }
    assert !t.raced ==> FlagRight(t) by {
      if !t.raced { NoRaceKeeps(s, x); }
    }
    FreshInv(t);
  }

  lemma StaysFresh(s: State, x: S.Step)
    requires Enabled(s, Base(x)) && !s.stale && s.base.bridge.capacity > 0
    requires x.SeeDrained? ==> s.base.bridge.pending == 0
    ensures !Apply(s, Base(x)).stale && Apply(s, Base(x)).base.bridge.capacity > 0
  {
    S.DoKeepsCapacity(s.base, x);
  }

  lemma FreshInv(t: State)
    ensures !t.stale && S.Inv(Abs(t)) && t.base.bridge.capacity > 0 && (!t.raced ==> FlagRight(t)) ==> Inv(t)
  {
  }

  lemma PastStays(s: S.State, x: S.Step)
    requires S.Enabled(s, x) && PastDrain(s)
    ensures PastDrain(S.Apply(s, x)) && !x.SeeDrained?
  {
  }

  /** Without a race a flag that is set or about to be set is right. */
  ghost predicate FlagRight(s: State) {
    && (s.loopSets || s.threadSets > 0 ==> s.base.bridge.pending == 0)
    && (s.base.bridge.drained ==> s.base.bridge.pending == 0)
  }

  lemma NoRaceKeeps(s: State, x: S.Step)
    requires FlagRight(s) && S.Counts(Abs(s)) && Enabled(s, Base(x))
    requires !Apply(s, Base(x)).raced
    ensures FlagRight(Apply(s, Base(x)))
  {
    PendingAfter(s.base, x);
    if Finishes(s.base, x) { StillPending(s, x); }
  }

  /** Only an accepted publish raises the counter, and it clears the flag. */
  lemma PendingAfter(s: S.State, x: S.Step)
    requires S.Enabled(s, x)
    ensures var t := S.Apply(s, x);
            && t.bridge.pending == s.bridge.pending + (if x.Accept? then 1 else if Finishes(s, x) then -1 else 0)
            && (x.Accept? ==> !t.bridge.drained)
            && (!x.Accept? && !Finishes(s, x) ==> t.bridge.drained == s.bridge.drained)
  {
    if x.RunCallback? {
    } else if x.Consume? {
    }
  }

  lemma StillPending(s: State, x: S.Step)
    requires S.Counts(Abs(s)) && Enabled(s, Base(x)) && Finishes(s.base, x)
    ensures s.base.bridge.pending > 0
  {
    match x
    case HandOverFails(item) => assert item in s.base.inHand;
    case PutTerminal(item) => assert item in s.base.puts;
    case RunCallback => assert s.base.callbacks != [];
    case _ =>
  }

  lemma {:induction false} RunKeepsInv(s: State, steps: seq<Step>)
    requires Inv(s)
    ensures Inv(Exec(s, steps))
    decreases |steps|
  {
    if steps != [] {
      DoKeepsInv(s, steps[0]);
      RunKeepsInv(Do(s, steps[0]), steps[1..]);
    }
  }

  lemma InitialInv(max: nat)
    ensures Inv(Initial(max))
  {
    S.InitialInv(max);
    assert Abs(Initial(max)) == S.Initial(max);
  }

  /** Once the drain is over, no stale flag can be seen any more. */
  lemma {:induction false} StaleFixed(s: State, steps: seq<Step>)
    requires PastDrain(s.base)
    ensures PastDrain(Exec(s, steps).base) && Exec(s, steps).stale == s.stale
    decreases |steps|
  {
    if steps != [] {
      if Enabled(s, steps[0]) && steps[0].Base? { PastStays(s.base, steps[0].step); }
      StaleFixed(Do(s, steps[0]), steps[1..]);
    }
  }

  // ---------------------------------------------------------------------------------------------
  // Losing an event: the sentinel overtakes what is still pending

  ghost predicate Delivers(s: S.State) {
    s.closer.Returned? ==> s.accepted == multiset(s.delivered) + s.lost
  }

  /** Everything but the queue, the consumer and the closer is as before, and `more` was delivered. */
  ghost predicate After(s: State, t: State, more: seq<Item>) {
    && t.base.accepted == s.base.accepted && t.base.lost == s.base.lost
    && t.base.delivered == s.base.delivered + more && !t.loopSets
    && t.base.bridge.capacity == s.base.bridge.capacity
  }

  lemma ExecStep(s: State, step: Step, rest: seq<Step>)
    ensures Exec(s, [step] + rest) == Exec(Do(s, step), rest)
  {
    assert ([step] + rest)[1..] == rest;
  }

  lemma ConsumesPlain(s: State)
    requires !s.loopSets && !s.base.consumerDone && s.base.bridge.queue != [] && S.IsPlain(s.base.bridge.queue[0])
    ensures var t := Do(s, Base(S.Consume));
            && After(s, t, [s.base.bridge.queue[0]]) && t.base.bridge.queue == s.base.bridge.queue[1..]
            && t.base.closer == s.base.closer && !t.base.consumerDone
  {
    assert Enabled(s, Base(S.Consume));
  }

  lemma ConsumesSentinel(s: State)
    requires !s.loopSets && !s.base.consumerDone && s.base.bridge.queue == [Sentinel]
    ensures var t := Do(s, Base(S.Consume));
            After(s, t, []) && t.base.closer == s.base.closer && t.base.consumerDone
  {
    assert Enabled(s, Base(S.Consume));
    assert s.base.delivered + [] == s.base.delivered;
  }

  lemma {:induction false} ConsumeAll(s: State, q: seq<Item>) returns (steps: seq<Step>)
    requires !s.loopSets && !s.base.consumerDone && s.base.closer.AwaitingConsumer?
    requires s.base.bridge.queue == q + [Sentinel] && forall x :: x in q ==> S.IsPlain(x)
    ensures var t := Exec(s, steps); After(s, t, q) && t.base.closer.Returned?
    decreases |q|
  {
    var t := Do(s, Base(S.Consume));
    if q == [] {
      ConsumesSentinel(s);
      var last := Base(S.SeeConsumerDone);
      assert Enabled(t, last);
      ExecStep(s, Base(S.Consume), [last]);
      ExecStep(t, last, []);
      assert [last] + [] == [last];
      steps := [Base(S.Consume)] + [last];
    } else {
      assert s.base.bridge.queue[0] == q[0] && s.base.bridge.queue[1..] == q[1..] + [Sentinel];
      ConsumesPlain(s);
      var rest := ConsumeAll(t, q[1..]);
      ExecStep(s, Base(S.Consume), rest);
      Collections.OneFurther(q, 0);
      Collections.Associate(s.base.delivered, [q[0]], q[1..]);
      steps := [Base(S.Consume)] + rest;
    }
  }

  lemma PutsSentinel(s: State)
    requires !s.loopSets && !s.base.consumerDone && s.base.closer.PuttingSentinel? && !IsFull(s.base.bridge)
    ensures var t := Do(s, Base(S.PutSentinel));
            && After(s, t, []) && t.base.bridge.queue == s.base.bridge.queue + [Sentinel]
            && t.base.closer.AwaitingConsumer? && !t.base.consumerDone
  {
    assert Enabled(s, Base(S.PutSentinel));
    assert s.base.delivered + [] == s.base.delivered;
  }

  lemma PutAndConsume(s: State) returns (steps: seq<Step>)
    requires !s.loopSets && !s.base.consumerDone && s.base.closer.PuttingSentinel? && !IsFull(s.base.bridge)
    requires forall x :: x in s.base.bridge.queue ==> S.IsPlain(x)
    ensures var t := Exec(s, steps); After(s, t, s.base.bridge.queue) && t.base.closer.Returned?
  {
    PutsSentinel(s);
    var t := Do(s, Base(S.PutSentinel));
    var rest := ConsumeAll(t, s.base.bridge.queue);
    ExecStep(s, Base(S.PutSentinel), rest);
    assert s.base.delivered + [] == s.base.delivered;
    steps := [Base(S.PutSentinel)] + rest;
  }

  /** From the moment the flag is seen: nothing but the queue gets through. */
  lemma {:induction false} OnlyQueueDelivered(s: State) returns (steps: seq<Step>)
    requires !s.loopSets && !s.base.consumerDone && s.base.closer.PuttingSentinel? && s.base.bridge.capacity > 0
    requires forall x :: x in s.base.bridge.queue ==> S.IsPlain(x)
    ensures var t := Exec(s, steps); After(s, t, s.base.bridge.queue) && t.base.closer.Returned?
    decreases |s.base.bridge.queue|
  {
    var q := s.base.bridge.queue;
    if !IsFull(s.base.bridge) {
      steps := PutAndConsume(s);
    } else {
      ConsumesPlain(s);
      var t := Do(s, Base(S.Consume));
      var rest := OnlyQueueDelivered(t);
      ExecStep(s, Base(S.Consume), rest);
      Collections.OneFurther(q, 0);
      Collections.Associate(s.base.delivered, [q[0]], q[1..]);
      steps := [Base(S.Consume)] + rest;
    }
  }

  // ---------------------------------------------------------------------------------------------
  // Main results

  ghost predicate AlwaysDelivers(s: State) {
    forall more :: Delivers(Exec(s, more).base)
  }

  /** When `close` sees the flag, it is sure to deliver everything accepted if and only if nothing is pending at that
      moment: otherwise some way to go on returns with an accepted event neither delivered nor counted as dropped. */
  lemma {:induction false} CloseDeliversIff(max: nat, steps: seq<Step>)
    requires Enabled(Exec(Initial(max), steps), Base(S.SeeDrained))
    ensures var s := Exec(Initial(max), steps);
            AlwaysDelivers(Do(s, Base(S.SeeDrained))) <==> s.base.bridge.pending == 0
  {
    InitialInv(max);
    RunKeepsInv(Initial(max), steps);
    var s := Exec(Initial(max), steps);
    if s.base.bridge.pending == 0 { SureIfNothingPending(s); } else { LossIfPending(s); }
  }

  lemma SureIfNothingPending(s: State)
    requires Inv(s) && Enabled(s, Base(S.SeeDrained)) && s.base.bridge.pending == 0
    ensures AlwaysDelivers(Do(s, Base(S.SeeDrained)))
  {
    var t := Do(s, Base(S.SeeDrained));
    DoKeepsInv(s, Base(S.SeeDrained));
    SeesDrained(s);
    forall more
      ensures Delivers(Exec(t, more).base)
    {
      RunKeepsInv(t, more);
      StaleFixed(t, more);
      NotStaleDelivers(Exec(t, more));
    }
  }

  lemma SeesDrained(s: State)
    requires Enabled(s, Base(S.SeeDrained))
    ensures var t := Do(s, Base(S.SeeDrained));
            PastDrain(t.base) && t.stale == (s.stale || s.base.bridge.pending != 0)
  {
  }

  lemma NotStaleDelivers(u: State)
    requires Inv(u) && !u.stale
    ensures Delivers(u.base)
  {
    if u.base.closer.Returned? { S.AllDelivered(Abs(u)); }
  }

  lemma LossIfPending(s: State)
    requires Inv(s) && Enabled(s, Base(S.SeeDrained)) && s.base.bridge.pending != 0
    ensures !AlwaysDelivers(Do(s, Base(S.SeeDrained)))
  {
    assert s.base.closer.AwaitingDrain? && !s.stale;
    PlainOf(Abs(s));
    LossFrom(s);
  }

  lemma LossFrom(s: State)
    requires Enabled(s, Base(S.SeeDrained)) && s.base.bridge.pending != 0 && s.base.bridge.capacity > 0
    requires (forall x :: x in Abs(s).bridge.queue ==> S.IsPlain(x)) && !Abs(s).consumerDone
    requires |s.base.accepted| == s.base.bridge.pending + |s.base.lost| + |s.base.bridge.queue| + |s.base.delivered|
    ensures !AlwaysDelivers(Do(s, Base(S.SeeDrained)))
  {
    var t := Do(s, Base(S.SeeDrained));
    assert t.base.bridge.queue == s.base.bridge.queue && t.base.delivered == s.base.delivered;
    var more := OnlyQueueDelivered(t);
    Undelivered(s, Exec(t, more));
  }

  lemma Undelivered(s: State, u: State)
    requires s.base.bridge.pending != 0 && After(s, u, s.base.bridge.queue) && u.base.closer.Returned?
    requires |s.base.accepted| == s.base.bridge.pending + |s.base.lost| + |s.base.bridge.queue| + |s.base.delivered|
    ensures !Delivers(u.base)
  {
    assert |multiset(u.base.delivered) + u.base.lost| == |u.base.delivered| + |u.base.lost|;
  }

  lemma PlainOf(a: S.State)
    requires S.Inv(a) && a.closer.AwaitingDrain?
    ensures (forall x :: x in a.bridge.queue ==> S.IsPlain(x)) && !a.consumerDone
    ensures |a.accepted| == a.bridge.pending + |a.lost| + |a.bridge.queue| + |a.delivered|
  {
    S.QueueBeforeDrain(a);
    S.AcceptedSize(a);
  }

  /** Step `i` is an accepted publish while some `set()` is still to come. */
  ghost predicate PublishesInGap(s: State, steps: seq<Step>, i: nat)
    requires i < |steps|
  {
    var u := Exec(s, steps[..i]);
    steps[i].Base? && steps[i].step.Accept? && Enabled(u, steps[i]) && (u.loopSets || u.threadSets > 0)
  }

  ghost predicate GapHit(s: State, steps: seq<Step>) {
    exists i: nat :: i < |steps| && PublishesInGap(s, steps, i)
  }

  lemma {:induction false} RacedIff(s: State, steps: seq<Step>)
    ensures Exec(s, steps).raced <==> s.raced || GapHit(s, steps)
    decreases |steps|
  {
    if steps != [] {
      var t, rest := Do(s, steps[0]), steps[1..];
      RacedIff(t, rest);
      FirstRaces(s, steps[0]);
      assert steps[..0] == [];
      forall i: nat | i < |rest|
        ensures PublishesInGap(t, rest, i) <==> PublishesInGap(s, steps, i + 1)
      {
        assert steps[..i + 1] == [steps[0]] + rest[..i];
        ExecStep(s, steps[0], rest[..i]);
      }
      if t.raced && !s.raced { assert PublishesInGap(s, steps, 0); }
      if GapHit(t, rest) {
        var i: nat :| i < |rest| && PublishesInGap(t, rest, i);
        assert PublishesInGap(s, steps, i + 1);
      }
      if GapHit(s, steps) && !t.raced {
        var i: nat :| i < |steps| && PublishesInGap(s, steps, i);
        assert i > 0 && PublishesInGap(t, rest, i - 1);
      }
    }
  }

  lemma FirstRaces(s: State, step: Step)
    ensures Do(s, step).raced <==> s.raced || PublishesInGap(s, [step], 0)
  {
    assert [step][..0] == [];
  }

  /** That needs a publish to come between a last decrement and its `set()`: without one, `close` always delivers. */
  lemma {:induction false} CloseDeliversWithoutRace(max: nat, steps: seq<Step>)
    requires Enabled(Exec(Initial(max), steps), Base(S.SeeDrained)) && !GapHit(Initial(max), steps)
    ensures AlwaysDelivers(Do(Exec(Initial(max), steps), Base(S.SeeDrained)))
  {
    InitialInv(max);
    RacedIff(Initial(max), steps);
    RunKeepsInv(Initial(max), steps);
    var s := Exec(Initial(max), steps);
    assert s.base.closer.AwaitingDrain? && s.base.bridge.drained;
    SureIfNothingPending(s);
  }

  /** A run in which that happens: the callback of the first event has emptied the counter, a second event is
      published before the flag is set, and `close` sees the flag. */
  lemma {:induction false} RaceIsReachable(max: nat)
    ensures var p, q := Item(Envelope(0, None), false), Item(Envelope(1, None), false);
            var run := [Base(S.Accept(p)), Base(S.HandOver(p)), Base(S.RunCallback), Base(S.Accept(q)), LoopSets,
                        Base(S.CloseIntake)];
            var s := Exec(Initial(max), run);
            Enabled(s, Base(S.SeeDrained)) && s.base.bridge.pending == 1 && !AlwaysDelivers(Do(s, Base(S.SeeDrained)))
  {
    var p, q := Item(Envelope(0, None), false), Item(Envelope(1, None), false);
    var run := [Base(S.Accept(p)), Base(S.HandOver(p)), Base(S.RunCallback), Base(S.Accept(q)), LoopSets,
                Base(S.CloseIntake)];
    FirstHalf(max, p);
    SixSteps(Initial(max), run);
    var s := Do(Do(Do(Initial(max), run[0]), run[1]), run[2]);
    SecondHalf(s, q);
    CloseDeliversIff(max, run);
  }

  lemma SixSteps(s: State, run: seq<Step>)
    requires |run| == 6
    ensures Exec(s, run) == Do(Do(Do(Do(Do(Do(s, run[0]), run[1]), run[2]), run[3]), run[4]), run[5])
  {
    var s1 := Do(s, run[0]);
    var s2 := Do(s1, run[1]);
    var s3 := Do(s2, run[2]);
    var s4 := Do(s3, run[3]);
    var s5 := Do(s4, run[4]);
    assert run[1..][1..] == run[2..] && run[2..][1..] == run[3..] && run[3..][1..] == run[4..];
    assert run[4..][1..] == run[5..] && run[5..][1..] == [];
    assert Exec(s, run) == Exec(s1, run[1..]) == Exec(s2, run[2..]) == Exec(s3, run[3..]);
    assert Exec(s3, run[3..]) == Exec(s4, run[4..]) == Exec(s5, run[5..]);
    assert Exec(s5, run[5..]) == Exec(Do(s5, run[5]), []);
  }

  lemma SecondHalf(s: State, q: Item)
    requires S.IsPlain(q) && s.base.bridge.pending == 0 && s.loopSets
    requires !s.base.bridge.closed && s.base.closer.NotClosing?
    ensures var t := Do(Do(Do(s, Base(S.Accept(q))), LoopSets), Base(S.CloseIntake));
            t.base.bridge.pending == 1 && Enabled(t, Base(S.SeeDrained))
  {
    var s1 := Do(s, Base(S.Accept(q)));
    var s2 := Do(s1, LoopSets);
    assert s1.base.bridge.pending == 1 && s1.loopSets;
    assert s2.base.bridge.pending == 1 && s2.base.bridge.drained && !s2.loopSets;
  }

  lemma FirstHalf(max: nat, p: Item)
    requires S.IsPlain(p) && !p.terminal
    ensures var s := Do(Do(Do(Initial(max), Base(S.Accept(p))), Base(S.HandOver(p))), Base(S.RunCallback));
            s.base.bridge.pending == 0 && s.loopSets && !s.base.bridge.closed && s.base.closer.NotClosing?
  {
    var s1 := Do(Initial(max), Base(S.Accept(p)));
    assert p in s1.base.inHand;
    var s2 := Do(s1, Base(S.HandOver(p)));
    assert s2.base.callbacks == [p];
  }
}
