/** The event bridge in its surroundings (src/synapse/acp/events.py:56-135): every interleaving of publishers,
    loop callbacks, blocked terminal puts, the consumer and one `close`.  Published envelopes have no nested
    event, which is the shape src/synapse/acp/agent.py:799-803 publishes. */
module EventBridgeSystem {
  import Collections
  import opened Wrappers
  import opened EventBridge

  datatype Closer = NotClosing | AwaitingDrain | PuttingSentinel | AwaitingConsumer | Returned

  datatype State = State(
    bridge: Bridge,
    inHand: multiset<Item>,       // accepted, `call_soon_threadsafe` not yet reached
    callbacks: seq<Item>,         // scheduled `_enqueue` calls
    puts: multiset<Item>,         // spawned `_enqueue_terminal` tasks
    closer: Closer,
    consumerDone: bool,
    accepted: multiset<Item>,     // history
    handed: seq<Item>,
    lost: multiset<Item>,
    delivered: seq<Item>)

  datatype Step =
    | Accept(item: Item)
    | HandOver(item: Item)
    | HandOverFails(item: Item)   // the loop is closed: publish raises
    | RunCallback
    | PutTerminal(item: Item)
    | Consume
    | CloseIntake
    | SeeDrained
    | PutSentinel
    | SeeConsumerDone

  function Initial(maxPreviewEvents: nat): State {
    State(Bridge(maxPreviewEvents + 1, false, 0, true, 0, 0, []), multiset{}, [], multiset{},
          NotClosing, false, multiset{}, [], multiset{}, [])
  }

  predicate IsPlain(item: Item) {
    item.Item? && item.env.event.None?
  }

  predicate Enabled(s: State, step: Step) {
    match step
    case Accept(item) => !s.bridge.closed && IsPlain(item)
    case HandOver(item) => item in s.inHand
    case HandOverFails(item) => item in s.inHand
    case RunCallback => s.callbacks != []
    case PutTerminal(item) => item in s.puts && !IsFull(s.bridge)
    case Consume => s.bridge.queue != [] && !s.consumerDone
    case CloseIntake => s.closer.NotClosing?
    case SeeDrained => s.closer.AwaitingDrain? && s.bridge.drained
    case PutSentinel => s.closer.PuttingSentinel? && !IsFull(s.bridge)
    case SeeConsumerDone => s.closer.AwaitingConsumer? && s.consumerDone
  }

  function ConsumeOne(s: State): State
    requires s.bridge.queue != []
  {
    var first, rest := s.bridge.queue[0], s.bridge.queue[1..];
    if first.Sentinel? then s.(bridge := s.bridge.(queue := rest), consumerDone := true)
    else if first.terminal then s.(bridge := s.bridge.(queue := rest), delivered := s.delivered + [first])
    else
      var (merged, left) := Coalesce(first.env, rest);
      s.(bridge := s.bridge.(queue := left), delivered := s.delivered + [Item(merged, false)])
  }

  function Apply(s: State, step: Step): State
    requires Enabled(s, step)
  {
    match step
    case Accept(item) =>
      s.(bridge := AcceptOne(s.bridge), inHand := s.inHand + multiset{item}, accepted := s.accepted + multiset{item})
    case HandOver(item) =>
      s.(inHand := s.inHand - multiset{item}, callbacks := s.callbacks + [item], handed := s.handed + [item])
    case HandOverFails(item) =>
      s.(bridge := Finish(s.bridge), inHand := s.inHand - multiset{item}, accepted := s.accepted - multiset{item})
    case RunCallback =>
      var item, rest := s.callbacks[0], s.callbacks[1..];
      if item.Sentinel? || item.terminal then s.(callbacks := rest, puts := s.puts + multiset{item})
      else s.(callbacks := rest, bridge := EnqueuePreview(s.bridge, item),
              lost := if IsFull(s.bridge) then s.lost + multiset{item} else s.lost)
    case PutTerminal(item) => s.(puts := s.puts - multiset{item}, bridge := EnqueueTerminal(s.bridge, item))
    case Consume => ConsumeOne(s)
    case CloseIntake => s.(bridge := s.bridge.(closed := true), closer := AwaitingDrain)
    case SeeDrained => s.(closer := PuttingSentinel)
    case PutSentinel => s.(closer := AwaitingConsumer, bridge := s.bridge.(queue := s.bridge.queue + [Sentinel]))
    case SeeConsumerDone => s.(closer := Returned)
  }

  function Do(s: State, step: Step): State {
    if Enabled(s, step) then Apply(s, step) else s
  }

  function Exec(s: State, steps: seq<Step>): State {
    if steps == [] then s else Do(Exec(s, steps[..|steps| - 1]), steps[|steps| - 1])
  }

  // ---------------------------------------------------------------------------------------------
  // Subsequences of previews

  function Previews(items: seq<Item>): seq<Item> {
    if items == [] then []
    else
      var last := items[|items| - 1];
      Previews(items[..|items| - 1]) + if last.Item? && !last.terminal then [last] else []
  }

  /** The places `idx` of `b` hold the elements of `a`, in order. */
  ghost predicate Embeds(a: seq<Item>, b: seq<Item>, idx: seq<nat>) {
    && |idx| == |a|
    && (forall k :: 0 <= k < |a| ==> idx[k] < |b| && a[k] == b[idx[k]])
    && (forall j, k :: 0 <= j < k < |a| ==> idx[j] < idx[k])
  }

  ghost predicate IsSubsequence(a: seq<Item>, b: seq<Item>) {
    exists idx :: Embeds(a, b, idx)
  }

  lemma {:induction false} PreviewsConcat(a: seq<Item>, b: seq<Item>)
    ensures Previews(a + b) == Previews(a) + Previews(b)
  {
    if b == [] {
      assert a + b == a;
    } else {
      var n := |b| - 1;
      assert (a + b)[..|a + b| - 1] == a + b[..n];
      PreviewsConcat(a, b[..n]);
    }
  }

  lemma {:induction false} PreviewsSplit(b: seq<Item>, n: nat)
    requires n <= |b|
    ensures Previews(b) == Previews(b[..n]) + Previews(b[n..])
  {
    if n == |b| {
      assert b[..n] == b && b[n..] == [];
    } else {
      var m := |b| - 1;
      PreviewsSplit(b[..m], n);
      assert b[..m][..n] == b[..n] && b[..m][n..] == b[n..][..m - n];
    }
  }

  lemma SubsequenceExtends(a: seq<Item>, b: seq<Item>, x: Item)
    requires IsSubsequence(a, b)
    ensures IsSubsequence(a, b + [x]) && IsSubsequence(a + [x], b + [x])
  {
    var idx: seq<nat> :| Embeds(a, b, idx);
    assert Embeds(a, b + [x], idx) && Embeds(a + [x], b + [x], idx + [|b|]);
  }

  lemma PartOfLonger(a: seq<Item>, d: seq<Item>, b: seq<Item>, c: seq<Item>)
    requires IsSubsequence(a + d, b)
    ensures IsSubsequence(a, b + c)
  {
    var idx: seq<nat> :| Embeds(a + d, b, idx);
    assert forall k :: 0 <= k < |a| ==> a[k] == (a + d)[k];
    assert Embeds(a, b + c, idx[..|a|]);
  }

  /** What holds of the previews of `a + d` and of the first `n` entries of `b` holds of those of `a` and `b`. */
  lemma WithinWhole(a: seq<Item>, d: seq<Item>, b: seq<Item>, n: nat)
    requires n <= |b| && IsSubsequence(Previews(a + d), Previews(b[..n]))
    ensures IsSubsequence(Previews(a), Previews(b))
  {
    PreviewsConcat(a, d);
    PreviewsSplit(b, n);
    PartOfLonger(Previews(a), Previews(d), Previews(b[..n]), Previews(b[n..]));
  }

  // ---------------------------------------------------------------------------------------------
  // The inductive invariant

  /** The queue without the sentinel. */
  function Events(s: State): seq<Item> {
    var q := s.bridge.queue;
    if s.closer.AwaitingConsumer? && !s.consumerDone && q != [] then q[..|q| - 1] else q
  }

  ghost predicate Counts(s: State) {
    && s.bridge.pending == |s.inHand| + |s.callbacks| + |s.puts|
    && (s.bridge.drained <==> s.bridge.pending == 0)
    && |s.bridge.queue| <= s.bridge.capacity
    && s.bridge.dropped == |s.lost|
    && s.bridge.queued == |Events(s)| + |s.delivered|
  }

  ghost predicate Shape(s: State) {
    && (forall x :: x in s.inHand ==> IsPlain(x))
    && (forall x :: x in s.callbacks ==> IsPlain(x))
    && (forall x :: x in s.puts ==> IsPlain(x) && x.terminal)
    && (forall x :: x in s.lost ==> IsPlain(x) && !x.terminal)
    && (forall x :: x in Events(s) ==> IsPlain(x))
  }

  ghost predicate Closing(s: State) {
    && (s.bridge.closed <==> !s.closer.NotClosing?)
    && (s.closer.PuttingSentinel? || s.closer.AwaitingConsumer? || s.closer.Returned? ==> s.bridge.pending == 0)
    && (s.consumerDone ==> s.bridge.queue == [] && (s.closer.AwaitingConsumer? || s.closer.Returned?))
    && (s.closer.Returned? ==> s.consumerDone)
    && (s.closer.AwaitingConsumer? && !s.consumerDone ==>
          s.bridge.queue != [] && s.bridge.queue[|s.bridge.queue| - 1] == Sentinel)
  }

  ghost predicate Conserved(s: State) {
    s.accepted == s.inHand + multiset(s.callbacks) + s.puts + s.lost + multiset(Events(s)) + multiset(s.delivered)
  }

  /** The previews that got through, in the order they were handed over; `waiting` is the end of that list. */
  ghost predicate Ordered(through: seq<Item>, handed: seq<Item>, waiting: seq<Item>) {
    && |waiting| <= |handed|
    && handed[|handed| - |waiting|..] == waiting
    && IsSubsequence(Previews(through), Previews(handed[..|handed| - |waiting|]))
  }

  ghost predicate InOrder(s: State) {
    Ordered(s.delivered + Events(s), s.handed, s.callbacks)
  }

  ghost predicate Inv(s: State) {
    Counts(s) && Shape(s) && Closing(s) && Conserved(s) && InOrder(s)
  }

  lemma {:induction false} StepKeepsInv(s: State, step: Step)
    requires Inv(s) && Enabled(s, step)
    ensures Inv(Apply(s, step))
  {
    match step
    case Accept(item) => AcceptKeeps(s, item);
    case HandOver(item) => HandOverKeeps(s, item);
    case HandOverFails(item) => FailCounts(s, item); FailConserves(s, item);
    case RunCallback => CallbackCounts(s); CallbackConserves(s); CallbackOrder(s);
    case PutTerminal(item) => PutCounts(s, item); PutConserves(s, item); PutOrder(s, item);
    case Consume => ConsumeCounts(s); ConsumeConserves(s); ConsumeOrder(s);
    case CloseIntake | SeeDrained | PutSentinel | SeeConsumerDone => CloserKeeps(s, step);
  }

  lemma SameOrder(s: State, t: State)
    requires InOrder(s) && t.delivered + Events(t) == s.delivered + Events(s)
    requires t.handed == s.handed && t.callbacks == s.callbacks
    ensures InOrder(t)
  {
  }

  lemma AcceptKeeps(s: State, item: Item)
    requires Inv(s) && Enabled(s, Accept(item))
    ensures Inv(Apply(s, Accept(item)))
  {
    SameOrder(s, Apply(s, Accept(item)));
  }

  lemma HandOverKeeps(s: State, item: Item)
    requires Inv(s) && Enabled(s, HandOver(item))
    ensures Inv(Apply(s, HandOver(item)))
  {
    HandOverCounts(s, item);
    HandOverConserves(s, item);
    HandOverOrder(s, item);
  }

  lemma HandOverCounts(s: State, item: Item)
    requires Counts(s) && Shape(s) && Closing(s) && item in s.inHand
    ensures var t := Apply(s, HandOver(item)); Counts(t) && Shape(t) && Closing(t)
  {
    assert Events(Apply(s, HandOver(item))) == Events(s);
  }

  lemma HandOverConserves(s: State, item: Item)
    requires Conserved(s) && item in s.inHand
    ensures Conserved(Apply(s, HandOver(item)))
  {
    var t := Apply(s, HandOver(item));
    assert Events(t) == Events(s);
    assert multiset(t.callbacks) == multiset(s.callbacks) + multiset{item};
    assert s.inHand == t.inHand + multiset{item};
  }

  lemma HandOverOrder(s: State, item: Item)
    requires InOrder(s) && item in s.inHand
    ensures InOrder(Apply(s, HandOver(item)))
  {
    var t := Apply(s, HandOver(item));
    var n := |s.handed| - |s.callbacks|;
    assert Events(t) == Events(s);
    assert t.handed[n..] == s.handed[n..] + [item];
    assert t.handed[..n] == s.handed[..n];
  }

  lemma RemoveFrom(a: multiset<Item>, rest: multiset<Item>, item: Item)
    requires item in a
    ensures (a + rest) - multiset{item} == (a - multiset{item}) + rest
  {
  }

  lemma FailConserves(s: State, item: Item)
    requires Conserved(s) && Enabled(s, HandOverFails(item))
    ensures Conserved(Apply(s, HandOverFails(item)))
  {
    var t := Apply(s, HandOverFails(item));
    var rest := multiset(s.callbacks) + s.puts + s.lost + multiset(Events(s)) + multiset(s.delivered);
    assert Events(t) == Events(s);
    assert s.accepted == s.inHand + rest;
    RemoveFrom(s.inHand, rest, item);
    assert t.accepted == t.inHand + rest;
  }

  lemma FailCounts(s: State, item: Item)
    requires Counts(s) && Shape(s) && Closing(s) && InOrder(s) && Enabled(s, HandOverFails(item))
    ensures var t := Apply(s, HandOverFails(item)); Counts(t) && Shape(t) && Closing(t) && InOrder(t)
  {
    var t := Apply(s, HandOverFails(item));
    assert Events(t) == Events(s);
    SameOrder(s, t);
  }

  lemma CallbackCounts(s: State)
    requires Counts(s) && Shape(s) && Closing(s) && Enabled(s, RunCallback)
    ensures var t := Apply(s, RunCallback); Counts(t) && Shape(t) && Closing(t)
  {
    var t := Apply(s, RunCallback);
    var item := s.callbacks[0];
    assert item in s.callbacks;
    assert s.closer.NotClosing? || s.closer.AwaitingDrain?;
    assert forall x :: x in t.callbacks ==> x in s.callbacks;
    assert Events(s) == s.bridge.queue && Events(t) == t.bridge.queue;
  }

  lemma CallbackConserves(s: State)
    requires Counts(s) && Shape(s) && Closing(s) && Conserved(s) && Enabled(s, RunCallback)
    ensures Conserved(Apply(s, RunCallback))
  {
    var item, rest := s.callbacks[0], s.callbacks[1..];
    assert s.callbacks == [item] + rest;
    assert multiset(s.callbacks) == multiset{item} + multiset(rest);
    CallbackMoves(s);
    OneMoreEvent(Events(s), item);
  }

  /** Where the item of a callback goes. */
  lemma CallbackMoves(s: State)
    requires Counts(s) && Shape(s) && Closing(s) && Enabled(s, RunCallback)
    ensures var t, item := Apply(s, RunCallback), s.callbacks[0];
            && item.Item? && t.callbacks == s.callbacks[1..]
            && t.accepted == s.accepted && t.inHand == s.inHand && t.delivered == s.delivered && t.handed == s.handed
            && t.puts == (if item.terminal then s.puts + multiset{item} else s.puts)
            && t.lost == (if !item.terminal && IsFull(s.bridge) then s.lost + multiset{item} else s.lost)
            && Events(t) == (if item.terminal || IsFull(s.bridge) then Events(s) else Events(s) + [item])
  {
    assert s.callbacks[0] in s.callbacks;
    assert Events(s) == s.bridge.queue;
  }

  lemma OneMoreEvent(q: seq<Item>, item: Item)
    ensures multiset(q + [item]) == multiset(q) + multiset{item}
  {
  }

  lemma CallbackOrder(s: State)
    requires Counts(s) && Shape(s) && Closing(s) && InOrder(s) && Enabled(s, RunCallback)
    ensures InOrder(Apply(s, RunCallback))
  {
    CallbackEffect(s);
    OrderPops(s.delivered + Events(s), s.handed, s.callbacks, !s.callbacks[0].terminal && !IsFull(s.bridge));
  }

  lemma CallbackEffect(s: State)
    requires Counts(s) && Shape(s) && Closing(s) && Enabled(s, RunCallback)
    ensures var t, item := Apply(s, RunCallback), s.callbacks[0];
            && item.Item? && t.handed == s.handed && t.callbacks == s.callbacks[1..]
            && t.delivered + Events(t) ==
                 if !item.terminal && !IsFull(s.bridge) then (s.delivered + Events(s)) + [item]
                 else s.delivered + Events(s)
  {
    CallbackMoves(s);
    Collections.Associate(s.delivered, Events(s), [s.callbacks[0]]);
  }

  lemma OrderPops(through: seq<Item>, handed: seq<Item>, waiting: seq<Item>, enqueued: bool)
    requires Ordered(through, handed, waiting) && waiting != [] && waiting[0].Item?
    requires enqueued ==> !waiting[0].terminal
    ensures Ordered(if enqueued then through + [waiting[0]] else through, handed, waiting[1..])
  {
    var n := |handed| - |waiting|;
    Collections.OneFurther(handed, n);
    OrderGrows(through, handed[..n], waiting[0], enqueued);
  }

  lemma OrderGrows(kept: seq<Item>, seen: seq<Item>, item: Item, enqueued: bool)
    requires item.Item? && IsSubsequence(Previews(kept), Previews(seen)) && (enqueued ==> !item.terminal)
    ensures IsSubsequence(Previews(if enqueued then kept + [item] else kept), Previews(seen + [item]))
  {
    PreviewsOne(seen, item);
    PreviewsOne(kept, item);
    if !item.terminal {
      SubsequenceExtends(Previews(kept), Previews(seen), item);
    }
  }

  lemma PreviewsOne(items: seq<Item>, item: Item)
    ensures Previews(items + [item]) == Previews(items) + if item.Item? && !item.terminal then [item] else []
    ensures item.Item? && item.terminal ==> Previews(items + [item]) == Previews(items)
  {
    assert (items + [item])[..|items|] == items;
  }

  lemma PutCounts(s: State, item: Item)
    requires Counts(s) && Shape(s) && Closing(s) && Enabled(s, PutTerminal(item))
    ensures var t := Apply(s, PutTerminal(item)); Counts(t) && Shape(t) && Closing(t)
  {
    var t := Apply(s, PutTerminal(item));
    assert s.bridge.pending > 0;
    assert Events(s) == s.bridge.queue && Events(t) == t.bridge.queue;
  }

  lemma PutMoves(s: State, item: Item)
    requires Counts(s) && Closing(s) && Enabled(s, PutTerminal(item))
    ensures var t := Apply(s, PutTerminal(item));
            && Events(t) == Events(s) + [item] && t.puts == s.puts - multiset{item}
            && t.accepted == s.accepted && t.inHand == s.inHand && t.callbacks == s.callbacks
            && t.lost == s.lost && t.delivered == s.delivered && t.handed == s.handed
  {
    assert s.bridge.pending > 0;
    assert Events(s) == s.bridge.queue;
  }

  lemma PutConserves(s: State, item: Item)
    requires Counts(s) && Closing(s) && Conserved(s) && Enabled(s, PutTerminal(item))
    ensures Conserved(Apply(s, PutTerminal(item)))
  {
    PutMoves(s, item);
    OneMoreEvent(Events(s), item);
    assert s.puts == (s.puts - multiset{item}) + multiset{item};
  }

  lemma PutOrder(s: State, item: Item)
    requires Counts(s) && Shape(s) && Closing(s) && InOrder(s) && Enabled(s, PutTerminal(item))
    ensures InOrder(Apply(s, PutTerminal(item)))
  {
    PutMoves(s, item);
    Collections.Associate(s.delivered, Events(s), [item]);
    OrderTerminal(s.delivered + Events(s), s.handed, s.callbacks, item);
  }

  lemma OrderTerminal(through: seq<Item>, handed: seq<Item>, waiting: seq<Item>, item: Item)
    requires Ordered(through, handed, waiting) && item.Item? && item.terminal
    ensures Ordered(through + [item], handed, waiting)
  {
    PreviewsOne(through, item);
  }

  /** Taking the head of the queue: the sentinel ends the consumer, anything else is delivered as it is. */
  lemma ConsumeSplits(s: State)
    requires Counts(s) && Shape(s) && Closing(s) && Enabled(s, Consume)
    ensures var t, first := Apply(s, Consume), s.bridge.queue[0];
            if first.Sentinel? then
              s.bridge.queue == [Sentinel] && Events(s) == [] && Events(t) == [] && s.closer.AwaitingConsumer? &&
              t == s.(bridge := s.bridge.(queue := []), consumerDone := true)
            else
              Events(s) == [first] + Events(t) && IsPlain(first) &&
              t == s.(bridge := s.bridge.(queue := s.bridge.queue[1..]), delivered := s.delivered + [first])
  {
    var t, q := Apply(s, Consume), s.bridge.queue;
    if |q| > 1 || !s.closer.AwaitingConsumer? { assert q[0] == Events(s)[0]; assert q[0] in Events(s); }
    if s.closer.AwaitingConsumer? && |q| > 1 { assert q[1..][..|q| - 2] == q[..|q| - 1][1..]; }
  }

  lemma ConsumeCounts(s: State)
    requires Counts(s) && Shape(s) && Closing(s) && Enabled(s, Consume)
    ensures var t := Apply(s, Consume); Counts(t) && Shape(t) && Closing(t)
  {
    ConsumeSplits(s);
    var t := Apply(s, Consume);
    assert forall x :: x in Events(t) ==> x in Events(s);
  }

  lemma ConsumeConserves(s: State)
    requires Counts(s) && Shape(s) && Closing(s) && Conserved(s) && Enabled(s, Consume)
    ensures Conserved(Apply(s, Consume))
  {
    ConsumeSplits(s);
    var t := Apply(s, Consume);
    if s.bridge.queue[0].Item? {
      var first := s.bridge.queue[0];
      assert multiset(Events(s)) == multiset{first} + multiset(Events(t));
      assert multiset(t.delivered) == multiset(s.delivered) + multiset{first};
    }
  }

  lemma ConsumeOrder(s: State)
    requires Counts(s) && Shape(s) && Closing(s) && InOrder(s) && Enabled(s, Consume)
    ensures InOrder(Apply(s, Consume))
  {
    ConsumeSplits(s);
    var t, first := Apply(s, Consume), s.bridge.queue[0];
    if first.Item? { Collections.Associate(s.delivered, [first], Events(t)); }
    SameOrder(s, t);
  }

  lemma CloserKeeps(s: State, step: Step)
    requires Inv(s) && Enabled(s, step)
    requires step.CloseIntake? || step.SeeDrained? || step.PutSentinel? || step.SeeConsumerDone?
    ensures Inv(Apply(s, step))
  {
    var t := Apply(s, step);
    if step.PutSentinel? {
      SentinelHidden(s.bridge.queue);
      SentinelShape(s);
    } else {
      CloserShape(s, step);
    }
    SameEvents(s, t);
    SameOrder(s, t);
  }

  lemma SentinelHidden(q: seq<Item>)
    ensures (q + [Sentinel])[..|q|] == q
  {
  }

  lemma SentinelShape(s: State)
    requires Counts(s) && Shape(s) && Closing(s) && Enabled(s, PutSentinel)
    ensures var t := Apply(s, PutSentinel);
            Events(t) == Events(s) && Counts(t) && Shape(t) && Closing(t)
  {
    SentinelHidden(s.bridge.queue);
  }

  lemma CloserShape(s: State, step: Step)
    requires Counts(s) && Shape(s) && Closing(s) && Enabled(s, step)
    requires step.CloseIntake? || step.SeeDrained? || step.SeeConsumerDone?
    ensures var t := Apply(s, step);
            Events(t) == Events(s) && Counts(t) && Shape(t) && Closing(t)
  {
  }

  lemma SameEvents(s: State, t: State)
    requires Conserved(s) && Events(t) == Events(s)
    requires t.accepted == s.accepted && t.inHand == s.inHand && t.callbacks == s.callbacks
    requires t.puts == s.puts && t.lost == s.lost && t.delivered == s.delivered
    ensures Conserved(t)
  {
  }

  lemma {:induction false} RunFromKeepsInv(s: State, steps: seq<Step>)
    requires Inv(s)
    ensures Inv(Exec(s, steps))
  {
    if steps != [] {
      RunFromKeepsInv(s, steps[..|steps| - 1]);
      DoKeepsInv(Exec(s, steps[..|steps| - 1]), steps[|steps| - 1]);
    }
  }

  lemma InitialInv(max: nat)
    ensures Inv(Initial(max))
  {
    var s := Initial(max);
    assert Events(s) == [] && s.delivered + Events(s) == [];
    assert Counts(s);
    assert Closing(s) && Shape(s);
    assert Conserved(s);
    assert Embeds([], [], []);
    assert Ordered([], [], []);
  }

  lemma RunKeepsInv(max: nat, steps: seq<Step>)
    ensures Inv(Exec(Initial(max), steps))
  {
    InitialInv(max);
    RunFromKeepsInv(Initial(max), steps);
  }

  lemma DoKeepsInv(s: State, step: Step)
    requires Inv(s)
    ensures Inv(Do(s, step))
  {
    if Enabled(s, step) { StepKeepsInv(s, step); }
  }

  lemma DoKeepsCapacity(s: State, step: Step)
    ensures Do(s, step).bridge.capacity == s.bridge.capacity
  {
  }

  lemma {:induction false} CapacityFixed(max: nat, steps: seq<Step>)
    ensures Exec(Initial(max), steps).bridge.capacity == max + 1
  {
    if steps != [] {
      CapacityFixed(max, steps[..|steps| - 1]);
      DoKeepsCapacity(Exec(Initial(max), steps[..|steps| - 1]), steps[|steps| - 1]);
    }
  }

  // ---------------------------------------------------------------------------------------------
  // Main results

  /** At every step: accepted = dropped + enqueued + still pending, the queue never holds more than
      `max_preview_events + 1` entries, and only previews are ever dropped. */
  lemma {:induction false} AcceptedAreAccountedFor(max: nat, steps: seq<Step>)
    ensures var s := Exec(Initial(max), steps);
            && |s.accepted| == s.bridge.dropped + s.bridge.queued + s.bridge.pending
            && |s.bridge.queue| <= max + 1
            && (forall x :: x in s.lost ==> x.Item? && !x.terminal)
            && s.bridge.dropped == |s.lost|
  {
    RunKeepsInv(max, steps);
    CapacityFixed(max, steps);
  }

  /** A preview is dropped exactly when `max_preview_events + 1` entries are queued, and otherwise goes to the tail. */
  lemma {:induction false} PreviewDroppedIff(max: nat, steps: seq<Step>)
    requires var s := Exec(Initial(max), steps); s.callbacks != [] && s.callbacks[0].Item? && !s.callbacks[0].terminal
    ensures var s := Exec(Initial(max), steps);
            var t := Do(s, RunCallback);
            if |s.bridge.queue| == max + 1
            then t.bridge.queue == s.bridge.queue && t.bridge.dropped == s.bridge.dropped + 1
            else t.bridge.queue == s.bridge.queue + [s.callbacks[0]] && t.bridge.dropped == s.bridge.dropped
  {
    AcceptedAreAccountedFor(max, steps);
    CapacityFixed(max, steps);
    DroppedIfFull(Exec(Initial(max), steps));
  }

  lemma DroppedIfFull(s: State)
    requires s.callbacks != [] && s.callbacks[0].Item? && !s.callbacks[0].terminal
    ensures var t := Do(s, RunCallback);
            if |s.bridge.queue| >= s.bridge.capacity
            then t.bridge.queue == s.bridge.queue && t.bridge.dropped == s.bridge.dropped + 1
            else t.bridge.queue == s.bridge.queue + [s.callbacks[0]] && t.bridge.dropped == s.bridge.dropped
  {
    assert Enabled(s, RunCallback);
  }

  /** Delivered previews keep the order in which they were handed to the loop. */
  lemma {:induction false} PreviewsDeliveredInOrder(max: nat, steps: seq<Step>)
    ensures var s := Exec(Initial(max), steps);
            IsSubsequence(Previews(s.delivered), Previews(s.handed))
  {
    RunKeepsInv(max, steps);
    var s := Exec(Initial(max), steps);
    WithinWhole(s.delivered, Events(s), s.handed, |s.handed| - |s.callbacks|);
  }

  /** When `close` has returned, every accepted event was delivered exactly once, except for the previews that
      were counted as dropped; in particular every terminal event was delivered. */
  lemma {:induction false} CloseDeliversEverything(max: nat, steps: seq<Step>)
    ensures var s := Exec(Initial(max), steps);
            s.closer.Returned? ==>
              && s.accepted == multiset(s.delivered) + s.lost
              && |s.lost| == s.bridge.dropped
              && (forall x :: x in s.accepted && x.Item? && x.terminal ==> s.accepted[x] == multiset(s.delivered)[x])
  {
    RunKeepsInv(max, steps);
    if Exec(Initial(max), steps).closer.Returned? { AllDelivered(Exec(Initial(max), steps)); }
  }

  /** Until the drain is over the queue holds events only. */
  lemma QueueBeforeDrain(s: State)
    requires Shape(s) && Closing(s) && s.closer.AwaitingDrain?
    ensures Events(s) == s.bridge.queue && !s.consumerDone
    ensures forall x :: x in s.bridge.queue ==> IsPlain(x)
  {
    assert Events(s) == s.bridge.queue;
  }

  lemma AcceptedSize(s: State)
    requires Counts(s) && Conserved(s)
    ensures |s.accepted| == s.bridge.pending + |s.lost| + |Events(s)| + |s.delivered|
  {
  }

  lemma AllDelivered(s: State)
    requires Inv(s) && s.closer.Returned?
    ensures s.accepted == multiset(s.delivered) + s.lost && |s.lost| == s.bridge.dropped
    ensures forall x :: x in s.accepted && x.Item? && x.terminal ==> s.accepted[x] == multiset(s.delivered)[x]
  {
    assert Events(s) == [];
    assert s.inHand == multiset{} && s.puts == multiset{} && s.callbacks == [];
    assert s.accepted == multiset(s.delivered) + s.lost;
    assert forall x :: x in s.lost ==> x.Item? && !x.terminal;
  }

  /** What is left to do once intake is closed. */
  function Measure(s: State): nat {
    4 * |s.inHand| + 3 * |s.callbacks| + 2 * |s.puts| + |s.bridge.queue| +
    match s.closer
    case NotClosing => 5
    case AwaitingDrain => 4
    case PuttingSentinel => 3
    case AwaitingConsumer => 1
    case Returned => 0
  }

  /** Once intake is closed every step brings the drain closer to its end. */
  lemma {:induction false} EveryStepDrains(max: nat, steps: seq<Step>, step: Step)
    ensures var s := Exec(Initial(max), steps);
            s.bridge.closed && Enabled(s, step) ==> Measure(Apply(s, step)) < Measure(s)
  {
    RunKeepsInv(max, steps);
    var s := Exec(Initial(max), steps);
    if s.bridge.closed && Enabled(s, step) {
      StepDrains(s, step);
    }
  }

  lemma StepDrains(s: State, step: Step)
    requires Counts(s) && Shape(s) && Closing(s) && s.bridge.closed && Enabled(s, step)
    ensures Measure(Apply(s, step)) < Measure(s)
  {
    match step
    case Consume => ConsumeDrains(s);
    case RunCallback => CallbackDrains(s);
    case HandOver(item) => LessOf(s.inHand, item);
    case HandOverFails(item) => LessOf(s.inHand, item);
    case PutTerminal(item) => LessOf(s.puts, item);
    case _ =>
  }

  lemma ConsumeDrains(s: State)
    requires Counts(s) && Shape(s) && Closing(s) && Enabled(s, Consume)
    ensures Measure(Apply(s, Consume)) < Measure(s)
  {
    ConsumeSplits(s);
  }

  lemma CallbackDrains(s: State)
    requires Counts(s) && Shape(s) && Closing(s) && Enabled(s, RunCallback)
    ensures Measure(Apply(s, RunCallback)) < Measure(s)
  {
    CallbackMoves(s);
    assert |Apply(s, RunCallback).bridge.queue| <= |s.bridge.queue| + 1;
  }

  lemma LessOf(m: multiset<Item>, item: Item)
    requires item in m
    ensures |m - multiset{item}| == |m| - 1
  {
  }

  /** And until `close` returns there always is such a step, so it cannot hang. */
  lemma {:induction false} DrainNeverStuck(max: nat, steps: seq<Step>)
    ensures var s := Exec(Initial(max), steps);
            s.bridge.closed && !s.closer.Returned? ==> exists step :: Enabled(s, step)
  {
    RunKeepsInv(max, steps);
    CapacityFixed(max, steps);
    var s := Exec(Initial(max), steps);
    if s.bridge.closed && !s.closer.Returned? { SomeStepEnabled(s); }
  }

  lemma SomeStepEnabled(s: State)
    requires Inv(s) && s.bridge.capacity > 0 && s.bridge.closed && !s.closer.Returned?
    ensures exists step :: Enabled(s, step)
  {
    if s.bridge.queue != [] && !s.consumerDone {
      assert Enabled(s, Consume);
    } else if s.callbacks != [] {
      assert Enabled(s, RunCallback);
    } else if s.inHand != multiset{} {
      var x :| x in s.inHand;
      assert Enabled(s, HandOver(x));
    } else if s.puts != multiset{} {
      var x :| x in s.puts;
      assert Enabled(s, PutTerminal(x));
    } else if s.closer.AwaitingDrain? {
      assert Enabled(s, SeeDrained);
    } else if s.closer.PuttingSentinel? {
      assert Enabled(s, PutSentinel);
    } else {
      assert Enabled(s, SeeConsumerDone);
    }
  }
}
