/** `ACPEventBridge` (src/synapse/acp/events.py): synchronous publishers on any thread, one bounded queue, one
    consumer, and a `close` that waits for everything accepted.  The bridge object comes first, then the system
    of publishers, event loop, blocked puts, consumer and closer around it. */
module EventBridge {
  import Collections
  import opened Wrappers

  /** What `envelope.event` exposes, when there is such an attribute; `mergeable` says that
      `dataclasses.replace` works on it and its payload. */
  datatype Nested = Nested(kind: string, text: string, mergeable: bool)

  datatype Envelope = Envelope(id: nat, event: Option<Nested>)

  /** A queue entry; `Sentinel` is the `(None, True)` that `close` puts. */
  datatype Item = Item(env: Envelope, terminal: bool) | Sentinel

  /** The fields of the bridge. */
  datatype Bridge = Bridge(
    capacity: nat,
    closed: bool,
    pending: int,
    drained: bool,
    dropped: nat,
    queued: nat,
    queue: seq<Item>)

  predicate IsFull(b: Bridge) {
    |b.queue| >= b.capacity
  }

  /** `_finish_callback` */
  function Finish(b: Bridge): Bridge {
    b.(pending := b.pending - 1, drained := b.pending - 1 == 0 || b.drained)
  }

  /** `publish`, lock section */
  function AcceptOne(b: Bridge): Bridge {
    b.(pending := b.pending + 1, drained := false)
  }

  /** `_enqueue` of a preview */
  function EnqueuePreview(b: Bridge, item: Item): Bridge {
    Finish(if IsFull(b) then b.(dropped := b.dropped + 1)
           else b.(queue := b.queue + [item], queued := b.queued + 1))
  }

  /** `_enqueue_terminal` once its `put` has room */
  function EnqueueTerminal(b: Bridge, item: Item): Bridge {
    Finish(b.(queue := b.queue + [item], queued := b.queued + 1))
  }

  // ---------------------------------------------------------------------------------------------
  // Coalescing

  const DELTA_KINDS: set<string> := {"answer_delta", "reasoning_delta"}

  predicate IsDelta(kind: string) {
    kind in DELTA_KINDS
  }

  predicate SameKind(item: Item, kind: string) {
    item.Item? && !item.terminal && item.env.event.Some? && item.env.event.value.kind == kind
  }

  /** How many entries at the head of the queue merge with a delta of the given kind. */
  function RunLength(queue: seq<Item>, kind: string): (k: nat)
    ensures k <= |queue|
    ensures forall i :: 0 <= i < k ==> SameKind(queue[i], kind)
    ensures k < |queue| ==> !SameKind(queue[k], kind)
  {
    if queue == [] || !SameKind(queue[0], kind) then 0 else 1 + RunLength(queue[1..], kind)
  }

  function Text(items: seq<Item>): string {
    if items == [] then ""
    else Text(items[..|items| - 1]) +
         var last := items[|items| - 1];
         if last.Item? && last.env.event.Some? then last.env.event.value.text else ""
  }

  /** The envelope with the texts of a run joined to its own, or itself where it cannot be replaced. */
  function WithText(first: Envelope, more: string): Envelope
    requires first.event.Some?
  {
    var e := first.event.value;
    if e.mergeable then first.(event := Some(e.(text := e.text + more))) else first
  }

  /** `_coalesce_preview`: merge the run, and put the first entry that does not belong to it back at the tail. */
  function Coalesce(first: Envelope, queue: seq<Item>): (Envelope, seq<Item>) {
    if first.event.None? || !IsDelta(first.event.value.kind) then (first, queue)
    else
      var k := RunLength(queue, first.event.value.kind);
      (WithText(first, Text(queue[..k])),
       if k == |queue| then [] else queue[k + 1..] + [queue[k]])
  }

  /** The number of queue entries a preview swallows. */
  function Merged(first: Envelope, queue: seq<Item>): (k: nat)
    ensures k <= |queue|
  {
    if first.event.None? || !IsDelta(first.event.value.kind) then 0 else RunLength(queue, first.event.value.kind)
  }

  /** No entry is lost or invented: the swallowed entries are a prefix of the queue, previews of the same kind, their
      text is joined in order unless the envelope cannot be replaced, and the rest survives as a multiset. */
  lemma {:induction false} CoalesceConserves(first: Envelope, queue: seq<Item>)
    ensures var (merged, rest) := Coalesce(first, queue);
            var k := Merged(first, queue);
            && multiset(rest) == multiset(queue[k..])
            && merged.id == first.id
            && (first.event.None? ==> merged == first && rest == queue)
            && (first.event.Some? ==>
                  && (forall i :: 0 <= i < k ==> SameKind(queue[i], first.event.value.kind))
                  && merged.event.Some? && merged.event.value.kind == first.event.value.kind
                  && merged.event.value.text ==
                       first.event.value.text + if first.event.value.mergeable then Text(queue[..k]) else "")
  {
    if first.event.None? || !IsDelta(first.event.value.kind) {
      assert queue[0..] == queue;
      if first.event.Some? { NothingJoined(first.event.value.text, queue); }
    } else {
      RestSurvives(queue, Merged(first, queue));
      NothingJoined(first.event.value.text, queue);
    }
  }

  /** Which entries a preview swallows: none unless it is an answer or reasoning delta, and then the longest run of
      previews of its own kind at the head of the queue. */
  lemma {:induction false} SwallowsItsRun(first: Envelope, queue: seq<Item>)
    requires first.event.Some?
    ensures var k, kind := Merged(first, queue), first.event.value.kind;
            && (kind != "answer_delta" && kind != "reasoning_delta" ==> Coalesce(first, queue) == (first, queue))
            && (forall i :: 0 <= i < k ==>
                  queue[i].Item? && !queue[i].terminal && queue[i].env.event.Some? &&
                  queue[i].env.event.value.kind == kind)
            && ((kind == "answer_delta" || kind == "reasoning_delta") && k < |queue| ==>
                  !(queue[k].Item? && !queue[k].terminal && queue[k].env.event.Some? &&
                    queue[k].env.event.value.kind == kind))
  {
  }

  lemma NothingJoined(text: string, queue: seq<Item>)
    ensures text + Text(queue[..0]) == text && text + "" == text
  {
  }

  lemma RestSurvives(queue: seq<Item>, k: nat)
    requires k <= |queue|
    ensures multiset(if k == |queue| then [] else queue[k + 1..] + [queue[k]]) == multiset(queue[k..])
  {
    if k < |queue| {
      assert queue[k..] == [queue[k]] + queue[k + 1..];
    } else {
      assert queue[k..] == [];
    }
  }

  /** All text is kept if and only if the envelope can be replaced or there was no text to join to it. */
  lemma {:induction false} CoalesceKeepsTextIff(first: Envelope, queue: seq<Item>)
    requires first.event.Some? && IsDelta(first.event.value.kind)
    ensures var swallowed := Text(queue[..Merged(first, queue)]);
            var merged := Coalesce(first, queue).0;
            merged.event.Some? &&
            (merged.event.value.text == first.event.value.text + swallowed <==>
             first.event.value.mergeable || swallowed == "")
  {
    CoalesceConserves(first, queue);
    var text, swallowed := first.event.value.text, Text(queue[..Merged(first, queue)]);
    assert |text + swallowed| == |text| + |swallowed|;
    if swallowed == "" { assert text + swallowed == text + ""; }
  }

  /** The order of what is left is kept if and only if the put-back changes nothing, that is when all entries
      left are equal (in particular when there is at most one). */
  lemma {:induction false} CoalesceKeepsOrderIff(first: Envelope, queue: seq<Item>)
    requires first.event.Some? && IsDelta(first.event.value.kind)
    ensures var k := RunLength(queue, first.event.value.kind);
            Coalesce(first, queue).1 == queue[k..] <==> forall i :: k <= i < |queue| ==> queue[i] == queue[k]
  {
    LeftOver(queue, RunLength(queue, first.event.value.kind));
  }

  lemma LeftOver(queue: seq<Item>, k: nat)
    requires k <= |queue|
    ensures (if k == |queue| then [] else queue[k + 1..] + [queue[k]]) == queue[k..] <==>
            forall i :: k <= i < |queue| ==> queue[i] == queue[k]
  {
    if k < |queue| {
      Collections.OneFurther(queue, k);
      RotationIff(queue[k..]);
      SameFrom(queue, k);
    }
  }

  lemma SameFrom(queue: seq<Item>, k: nat)
    requires k < |queue|
    ensures (forall i :: 0 <= i < |queue[k..]| ==> queue[k..][i] == queue[k..][0]) <==>
            forall i :: k <= i < |queue| ==> queue[i] == queue[k]
  {
    var left := queue[k..];
    assert forall i :: 0 <= i < |left| ==> left[i] == queue[k + i];
    assert forall i :: k <= i < |queue| ==> queue[i] == left[i - k];
  }

  lemma RotationIff(w: seq<Item>)
    requires w != []
    ensures w[1..] + [w[0]] == w <==> forall i :: 0 <= i < |w| ==> w[i] == w[0]
  {
    var rotated := w[1..] + [w[0]];
    if rotated == w {
      forall i | 0 <= i < |w|
        ensures w[i] == w[0]
      {
        RotationConstant(w, i);
      }
    } else {
      var i :| 0 <= i < |w| && rotated[i] != w[i];
      if i + 1 < |w| { assert rotated[i] == w[i + 1]; }
    }
  }

  lemma {:induction false} RotationConstant(w: seq<Item>, i: nat)
    requires i < |w| && w[1..] + [w[0]] == w
    ensures w[i] == w[0]
  {
    if i > 0 {
      RotationConstant(w, i - 1);
      assert w[i - 1] == (w[1..] + [w[0]])[i - 1] == w[i];
    }
  }

  /** With nested deltas a preview can be put back behind the close sentinel; the consumer then stops first. */
  lemma {:induction false} SentinelOvertakes(first: Envelope, other: Item)
    requires first.event.Some? && IsDelta(first.event.value.kind)
    requires other.Item? && !SameKind(other, first.event.value.kind)
    ensures Coalesce(first, [other, Sentinel]).1 == [Sentinel, other]
  {
  }

  // ---------------------------------------------------------------------------------------------
  // The object

  class ACPEventBridge {
    const capacity: nat
    var closed: bool
    var pendingCallbacks: int
    var drained: bool
    var droppedPreviewEvents: nat
    var queuedEvents: nat
    var queue: seq<Item>

    ghost function View(): Bridge
      reads this
    {
      Bridge(capacity, closed, pendingCallbacks, drained, droppedPreviewEvents, queuedEvents, queue)
    }

    constructor (maxPreviewEvents: nat)
      requires maxPreviewEvents >= 1
      ensures View() == Bridge(maxPreviewEvents + 1, false, 0, true, 0, 0, [])
    {
      capacity := maxPreviewEvents + 1;
      closed, pendingCallbacks, drained := false, 0, true;
      droppedPreviewEvents, queuedEvents, queue := 0, 0, [];
    }

    /** `publish` up to handing the callback to the loop; refused once closed. */
    method Publish() returns (accepted: bool)
      modifies this
      ensures accepted <==> !old(closed)
      ensures View() == if accepted then AcceptOne(old(View())) else old(View())
    {
      if closed { return false; }
      pendingCallbacks := pendingCallbacks + 1;
      drained := false;
      return true;
    }

    method FinishCallback()
      modifies this
      ensures View() == Finish(old(View()))
    {
      pendingCallbacks := pendingCallbacks - 1;
      if pendingCallbacks == 0 {
        drained := true;
      }
    }

    method EnqueuePreviewEvent(item: Item)
      modifies this
      ensures View() == EnqueuePreview(old(View()), item)
    {
      if |queue| >= capacity {
        droppedPreviewEvents := droppedPreviewEvents + 1;
      } else {
        queue := queue + [item];
        queuedEvents := queuedEvents + 1;
      }
      FinishCallback();
    }

    method EnqueueTerminalEvent(item: Item)
      requires |queue| < capacity
      modifies this
      ensures View() == EnqueueTerminal(old(View()), item)
    {
      queue := queue + [item];
      queuedEvents := queuedEvents + 1;
      FinishCallback();
    }

    /** `_coalesce_preview`, a loop over `get_nowait` */
    method CoalescePreview(first: Envelope) returns (merged: Envelope)
      modifies this`queue
      ensures (merged, queue) == Coalesce(first, old(queue))
    {
      if first.event.None? || !IsDelta(first.event.value.kind) { return first; }
      var kind := first.event.value.kind;
      var text := first.event.value.text;
      ghost var all := queue;
      var k := 0;
      while queue != []
        invariant 0 <= k <= |all| && queue == all[k..]
        invariant forall i :: 0 <= i < k ==> SameKind(all[i], kind)
        invariant text == first.event.value.text + Text(all[..k])
        decreases |queue|
      {
        var candidate := queue[0];
        queue := queue[1..];
        assert candidate == all[k];
        if !SameKind(candidate, kind) {
          queue := queue + [candidate];
          RunLengthIs(all, kind, k);
          return Merge(first, text, k);
        }
        text := text + candidate.env.event.value.text;
        assert all[..k + 1][..k] == all[..k];
        k := k + 1;
      }
      RunLengthIs(all, kind, k);
      return Merge(first, text, k);
    }
  }

  /** The end of `_coalesce_preview`: a single piece, a merged envelope, or the first one where `replace` fails. */
  function Merge(first: Envelope, text: string, swallowed: nat): Envelope
    requires first.event.Some?
  {
    if swallowed == 0 || !first.event.value.mergeable then first
    else first.(event := Some(first.event.value.(text := text)))
  }

  lemma {:induction false} RunLengthIs(queue: seq<Item>, kind: string, k: nat)
    requires k <= |queue| && forall i :: 0 <= i < k ==> SameKind(queue[i], kind)
    requires k < |queue| ==> !SameKind(queue[k], kind)
    ensures RunLength(queue, kind) == k
  {
    if k > 0 { RunLengthIs(queue[1..], kind, k - 1); }
  }
}
