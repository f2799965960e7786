/** What reclamation keeps (scripts/reclaim_checkpoint_snapshots.py:5-25).  A channel's value at a checkpoint is
    rebuilt from the nearest snapshot at or before it and the writes of the checkpoints after that snapshot;
    how writes are replayed is left entirely open. */
module ReclaimTheorems {
  import opened Wrappers
  import opened Reclaim

  /** Seed and replayed checkpoints for the last row of thread `t` among the first `n`. */
  function Basis(rows: seq<Row>, n: nat, t: string, ch: string): (Option<string>, seq<nat>)
    requires n <= |rows|
  {
    if n == 0 then (None, [])
    else
      var row := rows[n - 1];
      if row.thread != t then Basis(rows, n - 1, t, ch)
      else if IsSnapshot(row, ch) then (Some(row.blob.values[ch].content), [])
      else
        var b := Basis(rows, n - 1, t, ch);
        (b.0, b.1 + [row.id])
  }

  /** The value a reader gets; `replay` is any function of the seed and the checkpoints whose writes follow it. */
  function Reconstruct<R>(replay: (Option<string>, seq<nat>) -> R, rows: seq<Row>, n: nat, t: string, ch: string): R
    requires n <= |rows|
  {
    var b := Basis(rows, n, t, ch);
    replay(b.0, b.1)
  }

  ghost predicate Distinct(channels: seq<string>) {
    forall i, j :: 0 <= i < j < |channels| ==> channels[i] != channels[j]
  }

  // ---------------------------------------------------------------------------------------------
  // The scan of distinct channels is the list of snapshots

  lemma {:induction false} CountOfDistinct(channels: seq<string>, ch: string)
    requires Distinct(channels)
    ensures Count(channels, ch) == if ch in channels then 1 else 0
  {
    if channels != [] {
      var n := |channels| - 1;
      assert Distinct(channels[..n]);
      CountOfDistinct(channels[..n], ch);
      assert channels == channels[..n] + [channels[n]];
      assert channels[n] !in channels[..n];
    }
  }

  lemma {:induction false} GatheredOfDistinct(rows: seq<Row>, channels: seq<string>, t: string, ch: string)
    requires Distinct(channels)
    ensures Gathered(rows, channels, t, ch) == if ch in channels then SnapshotIds(rows, t, ch) else []
  {
    if rows != [] {
      GatheredOfDistinct(rows[..|rows| - 1], channels, t, ch);
      CountOfDistinct(channels, ch);
    }
  }

  ghost predicate SnapshotAt(rows: seq<Row>, i: int, t: string, ch: string, id: nat) {
    0 <= i < |rows| && rows[i].thread == t && rows[i].id == id && IsSnapshot(rows[i], ch)
  }

  /** Snapshot lists hold exactly the ids of the snapshot rows. */
  lemma {:induction false} SnapshotIdsExact(rows: seq<Row>, t: string, ch: string, id: nat)
    ensures id in SnapshotIds(rows, t, ch) <==> exists i :: SnapshotAt(rows, i, t, ch, id)
  {
    if rows != [] {
      var n := |rows| - 1;
      SnapshotIdsExact(rows[..n], t, ch, id);
      if i :| SnapshotAt(rows, i, t, ch, id) {
        if i < n { assert SnapshotAt(rows[..n], i, t, ch, id); }
      }
      if i :| SnapshotAt(rows[..n], i, t, ch, id) { assert SnapshotAt(rows, i, t, ch, id); }
      if id in SnapshotIds(rows, t, ch) && id !in SnapshotIds(rows[..n], t, ch) {
        assert SnapshotAt(rows, n, t, ch, id);
      }
    }
  }

  ghost predicate Ascends(s: seq<nat>) {
    forall i, j :: 0 <= i < j < |s| ==> s[i] < s[j]
  }

  /** Snapshot lists ascend and stay below any later row of the thread. */
  lemma {:induction false} SnapshotIdsAscend(rows: seq<Row>, t: string, ch: string)
    requires Ordered(rows)
    ensures Ascends(SnapshotIds(rows, t, ch))
  {
    if rows != [] {
      var n := |rows| - 1;
      assert Ordered(rows[..n]);
      SnapshotIdsAscend(rows[..n], t, ch);
      var s := SnapshotIds(rows[..n], t, ch);
      forall i | 0 <= i < |s|
        ensures s[i] < rows[n].id || rows[n].thread != t
      {
        SnapshotIdsExact(rows[..n], t, ch, s[i]);
        var k :| SnapshotAt(rows[..n], k, t, ch, s[i]);
        assert rows[k] == rows[..n][k];
      }
    }
  }

  lemma SnapshotIdsSorted(rows: seq<Row>, t: string, ch: string)
    requires Ordered(rows)
    ensures var s := SnapshotIds(rows, t, ch);
            && Ascends(s)
            && (forall id :: id in s ==>
                  exists i :: 0 <= i < |rows| && rows[i].thread == t && rows[i].id == id && IsSnapshot(rows[i], ch))
            && (forall i :: 0 <= i < |rows| && rows[i].thread == t && IsSnapshot(rows[i], ch) ==> rows[i].id in s)
  {
    SnapshotIdsAscend(rows, t, ch);
    var s := SnapshotIds(rows, t, ch);
    forall id | id in s
      ensures exists i :: 0 <= i < |rows| && rows[i].thread == t && rows[i].id == id && IsSnapshot(rows[i], ch)
    {
      SnapshotIdsExact(rows, t, ch, id);
      var i :| SnapshotAt(rows, i, t, ch, id);
    }
    forall i | 0 <= i < |rows| && rows[i].thread == t && IsSnapshot(rows[i], ch)
      ensures rows[i].id in s
    {
      assert SnapshotAt(rows, i, t, ch, rows[i].id);
      SnapshotIdsExact(rows, t, ch, rows[i].id);
    }
  }

  lemma {:induction false} SnapshotIdsPrefix(rows: seq<Row>, n: nat, t: string, ch: string)
    requires n <= |rows|
    ensures SnapshotIds(rows[..n], t, ch) <= SnapshotIds(rows, t, ch)
    decreases |rows|
  {
    if n < |rows| {
      var rest := rows[..|rows| - 1];
      assert rest[..n] == rows[..n];
      SnapshotIdsPrefix(rest, n, t, ch);
    } else {
      assert rows[..n] == rows;
    }
  }

  // ---------------------------------------------------------------------------------------------
  // What one row loses

  lemma {:induction false} LastEffectiveIsTarget(row: Row, targets: seq<Target>)
    ensures match LastEffective(row, targets)
            case None => forall x :: x in targets ==> !Effective(row, x)
            case Some(ch) => Target(row.thread, row.id, ch) in targets && Effective(row, Target(row.thread, row.id, ch))
  {
    if targets != [] {
      var x := targets[|targets| - 1];
      LastEffectiveIsTarget(row, targets[..|targets| - 1]);
      assert forall y :: y in targets ==> y == x || y in targets[..|targets| - 1];
      assert Effective(row, x) ==> x == Target(row.thread, row.id, x.channel);
    }
  }

  /** Rows, ids, threads, unreadable blobs and every channel nobody targeted survive; a channel of a row
      only ever disappears, and only if that row was a target for it. */
  lemma {:induction false} StripKeepsTheRest(rows: seq<Row>, targets: seq<Target>, i: nat)
    requires i < |rows|
    ensures var old_, new_ := rows[i], StripAll(rows, targets)[i];
            && new_.thread == old_.thread && new_.id == old_.id
            && (!old_.blob.Values? ==> new_ == old_)
            && (old_.blob.Values? ==> new_.blob.Values?)
            && (old_.blob.Values? ==> forall ch :: ch in old_.blob.values ==>
                  if ch in new_.blob.values then new_.blob.values[ch] == old_.blob.values[ch]
                  else Target(old_.thread, old_.id, ch) in targets)
            && (old_.blob.Values? ==> new_.blob.values.Keys <= old_.blob.values.Keys)
  {
    LastEffectiveIsTarget(rows[i], targets);
  }

  /** All targeted channels of a row are gone if and only if its effective targets name one channel only:
      with several, just the last update survives. */
  lemma {:induction false} AllTargetsRemovedIff(row: Row, targets: seq<Target>)
    requires row.blob.Values?
    ensures (forall x :: x in targets && Effective(row, x) ==> x.channel !in StripRow(row, targets).blob.values)
       <==> (forall x, y :: x in targets && y in targets && Effective(row, x) && Effective(row, y) ==>
                              x.channel == y.channel)
  {
    LastEffectiveIsTarget(row, targets);
    var last := LastEffective(row, targets);
    if last.Some? {
      var w := Target(row.thread, row.id, last.value);
      assert w in targets && Effective(row, w);
    }
  }

  /** Two channels snapshotted at the same checkpoint: the first removal is overwritten by the second. */
  lemma {:induction false} FirstRemovalLost(row: Row, c: string, d: string)
    requires row.blob.Values? && c in row.blob.values && d in row.blob.values && c != d
    ensures var after := StripRow(row, [Target(row.thread, row.id, c), Target(row.thread, row.id, d)]);
            after.blob.Values? && c in after.blob.values && d !in after.blob.values
  {
    assert LastEffective(row, [Target(row.thread, row.id, c), Target(row.thread, row.id, d)]) == Some(d);
  }

  // ---------------------------------------------------------------------------------------------
  // Kept snapshots

  /** A run: distinct channels, at least one snapshot kept, any list of targets the plan allows. */
  ghost predicate IsRun(rows: seq<Row>, channels: seq<string>, keep: nat, targets: seq<Target>) {
    Ordered(rows) && Distinct(channels) && keep >= 1 && IsPlan(rows, channels, keep, targets)
  }

  /** The newest `keep` snapshots of a channel, or all if there are fewer. */
  function Kept(rows: seq<Row>, keep: nat, t: string, ch: string): seq<nat> {
    Newest(SnapshotIds(rows, t, ch), keep)
  }

  /** The row holds a full snapshot of the channel and not merely a value. */
  predicate HoldsSnapshot(row: Row, t: string, ch: string) {
    row.thread == t && row.blob.Values? && ch in row.blob.values && row.blob.values[ch].Snapshot?
  }

  /** The rows from `i` on that hold a snapshot. */
  function SnapshotRows(rows: seq<Row>, i: nat, t: string, ch: string): set<int> {
    set j | i <= j < |rows| && HoldsSnapshot(rows[j], t, ch)
  }

  lemma {:induction false} SnapshotsCounted(rows: seq<Row>, i: nat, t: string, ch: string)
    requires i <= |rows|
    ensures |SnapshotIds(rows, t, ch)| == |SnapshotIds(rows[..i], t, ch)| + |SnapshotRows(rows, i, t, ch)|
    decreases |rows|
  {
    if i == |rows| {
      assert rows[..i] == rows && SnapshotRows(rows, i, t, ch) == {};
    } else {
      var n := |rows| - 1;
      var rest := rows[..n];
      SnapshotsCounted(rest, i, t, ch);
      assert rest[..i] == rows[..i];
      OneRowMore(rows, i, t, ch);
    }
  }

  lemma OneRowMore(rows: seq<Row>, i: nat, t: string, ch: string)
    requires i < |rows|
    ensures var n := |rows| - 1;
            |SnapshotRows(rows, i, t, ch)| ==
            |SnapshotRows(rows[..n], i, t, ch)| + if HoldsSnapshot(rows[n], t, ch) then 1 else 0
  {
    var n := |rows| - 1;
    var before := SnapshotRows(rows[..n], i, t, ch);
    assert SnapshotRows(rows, i, t, ch) == before + if HoldsSnapshot(rows[n], t, ch) then {n} else {};
    assert n !in before;
  }

  /** Row `i` is its thread's snapshot number so many. */
  lemma SnapshotPlace(rows: seq<Row>, i: nat, t: string, ch: string)
    requires i < |rows| && HoldsSnapshot(rows[i], t, ch)
    ensures var all, k := SnapshotIds(rows, t, ch), |SnapshotIds(rows[..i], t, ch)|;
            k < |all| && all[k] == rows[i].id && |all| == k + 1 + |SnapshotRows(rows, i + 1, t, ch)|
  {
    SnapshotsCounted(rows, i + 1, t, ch);
    SnapshotIdsPrefix(rows, i + 1, t, ch);
    assert rows[..i + 1][..i] == rows[..i] && rows[..i + 1][i] == rows[i];
    var seen := SnapshotIds(rows[..i + 1], t, ch);
    assert seen == SnapshotIds(rows[..i], t, ch) + [rows[i].id];
  }

  lemma OlderIff(s: seq<nat>, keep: nat, k: nat)
    requires Ascends(s) && k < |s|
    ensures s[k] in Older(s, keep) <==> |s| - k > keep
  {
    if |s| - k > keep { assert Older(s, keep)[k] == s[k]; }
  }

  /** Exactly which values a run gives up: a full snapshot of a named channel, and only if at least `keep` later
      checkpoints of the thread hold one too. */
  lemma {:induction false} TargetedIff(rows: seq<Row>, channels: seq<string>, keep: nat, targets: seq<Target>, i: nat,
                                       ch: string)
    requires IsRun(rows, channels, keep, targets) && i < |rows|
    ensures Target(rows[i].thread, rows[i].id, ch) in targets <==>
            && ch in channels && HoldsSnapshot(rows[i], rows[i].thread, ch)
            && |SnapshotRows(rows, i + 1, rows[i].thread, ch)| >= keep
  {
    var x := Target(rows[i].thread, rows[i].id, ch);
    var all := SnapshotIds(rows, x.thread, ch);
    assert x in targets <==> x.id in Older(Gathered(rows, channels, x.thread, x.channel), keep);
    GatheredOfDistinct(rows, channels, x.thread, ch);
    SnapshotIdsAscend(rows, x.thread, ch);
    if HoldsSnapshot(rows[i], x.thread, ch) {
      SnapshotPlace(rows, i, x.thread, ch);
      OlderIff(all, keep, |SnapshotIds(rows[..i], x.thread, ch)|);
    } else if x.id in all {
      NotASnapshot(rows, i, ch);
    }
  }

  lemma NotASnapshot(rows: seq<Row>, i: nat, ch: string)
    requires Ordered(rows) && i < |rows| && rows[i].id in SnapshotIds(rows, rows[i].thread, ch)
    ensures HoldsSnapshot(rows[i], rows[i].thread, ch)
  {
    SnapshotIdsExact(rows, rows[i].thread, ch, rows[i].id);
    var k :| SnapshotAt(rows, k, rows[i].thread, ch, rows[i].id);
    assert k == i;
  }

  /** No kept snapshot is touched, whatever the order of the target list. */
  lemma {:induction false} KeptNotTargeted(rows: seq<Row>, channels: seq<string>, keep: nat, targets: seq<Target>,
                                            t: string, ch: string, id: nat)
    requires IsRun(rows, channels, keep, targets) && id in Kept(rows, keep, t, ch)
    ensures Target(t, id, ch) !in targets
  {
    GatheredOfDistinct(rows, channels, t, ch);
    SnapshotIdsSorted(rows, t, ch);
    var x := Target(t, id, ch);
    assert x in targets <==> x.id in Older(Gathered(rows, channels, x.thread, x.channel), keep);
  }

  lemma KeptRowUnchanged(rows: seq<Row>, channels: seq<string>, keep: nat, targets: seq<Target>, i: nat, ch: string)
    requires IsRun(rows, channels, keep, targets) && i < |rows|
    requires IsSnapshot(rows[i], ch) && rows[i].id in Kept(rows, keep, rows[i].thread, ch)
    ensures IsSnapshot(StripAll(rows, targets)[i], ch)
    ensures StripAll(rows, targets)[i].blob.values[ch] == rows[i].blob.values[ch]
  {
    KeptNotTargeted(rows, channels, keep, targets, rows[i].thread, ch, rows[i].id);
    StripKeepsTheRest(rows, targets, i);
  }

  /** The nearest snapshot at or before row `n`, as a row index. */
  function Nearest(rows: seq<Row>, n: nat, t: string, ch: string): (r: Option<nat>)
    requires n <= |rows|
    ensures r.Some? ==> r.value < n && rows[r.value].thread == t && IsSnapshot(rows[r.value], ch)
  {
    if n == 0 then None
    else if rows[n - 1].thread == t && IsSnapshot(rows[n - 1], ch) then Some(n - 1)
    else Nearest(rows, n - 1, t, ch)
  }

  /** The nearest snapshot is the last of the snapshots seen so far. */
  lemma {:induction false} NearestIsLast(rows: seq<Row>, n: nat, t: string, ch: string)
    requires n <= |rows|
    ensures var s := SnapshotIds(rows[..n], t, ch);
            match Nearest(rows, n, t, ch)
            case None => s == []
            case Some(i) => s != [] && s[|s| - 1] == rows[i].id
  {
    if n > 0 {
      assert rows[..n][..n - 1] == rows[..n - 1];
      NearestIsLast(rows, n - 1, t, ch);
    }
  }

  /** If the nearest snapshot (or the lack of one) is untouched, so is everything a reader replays. */
  lemma {:induction false} BasisKept(rows: seq<Row>, targets: seq<Target>, n: nat, t: string, ch: string)
    requires n <= |rows|
    requires var i := Nearest(rows, n, t, ch);
             i.Some? ==> IsSnapshot(StripAll(rows, targets)[i.value], ch)
    ensures Basis(StripAll(rows, targets), n, t, ch) == Basis(rows, n, t, ch)
  {
    if n > 0 {
      StripKeepsTheRest(rows, targets, n - 1);
      if rows[n - 1].thread != t || !IsSnapshot(rows[n - 1], ch) {
        BasisKept(rows, targets, n - 1, t, ch);
      }
    }
  }

  /** If the nearest snapshot was stripped, the reader replays strictly more. */
  lemma {:induction false} BasisLost(rows: seq<Row>, targets: seq<Target>, n: nat, t: string, ch: string)
    requires n <= |rows|
    requires var i := Nearest(rows, n, t, ch);
             i.Some? && !IsSnapshot(StripAll(rows, targets)[i.value], ch)
    ensures |Basis(StripAll(rows, targets), n, t, ch).1| > |Basis(rows, n, t, ch).1|
  {
    StripKeepsTheRest(rows, targets, n - 1);
    if rows[n - 1].thread != t || !IsSnapshot(rows[n - 1], ch) {
      BasisLost(rows, targets, n - 1, t, ch);
    }
  }

  // ---------------------------------------------------------------------------------------------
  // Main results

  /** From the oldest kept snapshot of a channel onward, and wherever the channel has no snapshot yet, every
      reader reconstructs the same value as before, for any replay function. */
  lemma {:induction false} ReconstructionPreserved<R>(rows: seq<Row>, channels: seq<string>, keep: nat,
                                                       targets: seq<Target>, n: nat, t: string, ch: string,
                                                       replay: (Option<string>, seq<nat>) -> R)
    requires IsRun(rows, channels, keep, targets) && 1 <= n <= |rows| && rows[n - 1].thread == t
    requires Kept(rows, keep, t, ch) == [] || Kept(rows, keep, t, ch)[0] <= rows[n - 1].id
    ensures Reconstruct(replay, StripAll(rows, targets), n, t, ch) == Reconstruct(replay, rows, n, t, ch)
  {
    NearestIsKept(rows, keep, n, t, ch);
    var i := Nearest(rows, n, t, ch);
    if i.Some? { KeptRowUnchanged(rows, channels, keep, targets, i.value, ch); }
    BasisKept(rows, targets, n, t, ch);
  }

  lemma NearestIsKept(rows: seq<Row>, keep: nat, n: nat, t: string, ch: string)
    requires Ordered(rows) && keep >= 1 && 1 <= n <= |rows| && rows[n - 1].thread == t
    requires Kept(rows, keep, t, ch) == [] || Kept(rows, keep, t, ch)[0] <= rows[n - 1].id
    ensures var i := Nearest(rows, n, t, ch);
            i.Some? ==> rows[i.value].id in Kept(rows, keep, t, ch)
  {
    var all := SnapshotIds(rows, t, ch);
    var seen := SnapshotIds(rows[..n], t, ch);
    SnapshotIdsPrefix(rows, n, t, ch);
    NearestIsLast(rows, n, t, ch);
    SnapshotIdsSorted(rows, t, ch);
    if seen != [] && |all| > keep {
      var first := |all| - keep;
      SnapshotSeen(rows, n, t, ch, all[first]);
      assert all[first] == Kept(rows, keep, t, ch)[0];
      var k :| 0 <= k < |seen| && seen[k] == all[first];
      assert all[k] == all[first];
      assert k == first;
      assert seen[|seen| - 1] == all[|seen| - 1] == Kept(rows, keep, t, ch)[|seen| - 1 - first];
    }
  }

  /** A snapshot no later than row `n - 1` is among those of the first `n` rows. */
  lemma SnapshotSeen(rows: seq<Row>, n: nat, t: string, ch: string, id: nat)
    requires Ordered(rows) && 1 <= n <= |rows| && rows[n - 1].thread == t
    requires id in SnapshotIds(rows, t, ch) && id <= rows[n - 1].id
    ensures id in SnapshotIds(rows[..n], t, ch)
  {
    SnapshotIdsSorted(rows, t, ch);
    var i :| 0 <= i < |rows| && rows[i].thread == t && rows[i].id == id && IsSnapshot(rows[i], ch);
    assert i < n;
    assert Ordered(rows[..n]);
    SnapshotIdsSorted(rows[..n], t, ch);
    assert rows[..n][i] == rows[i];
  }

  /** In particular the newest value of every channel of every thread is the same. */
  lemma {:induction false} LatestPreserved<R>(rows: seq<Row>, channels: seq<string>, keep: nat, targets: seq<Target>,
                           t: string, ch: string, replay: (Option<string>, seq<nat>) -> R)
    requires IsRun(rows, channels, keep, targets)
    ensures Reconstruct(replay, StripAll(rows, targets), |rows|, t, ch) == Reconstruct(replay, rows, |rows|, t, ch)
  {
    var n := |rows|;
    NearestIsLast(rows, n, t, ch);
    assert rows[..n] == rows;
    var i := Nearest(rows, n, t, ch);
    if i.Some? { KeptRowUnchanged(rows, channels, keep, targets, i.value, ch); }
    BasisKept(rows, targets, n, t, ch);
  }

  /** For a single-channel run the guarantee is exact: what a reader replays at a checkpoint is unchanged if and
      only if that channel has no snapshot there yet or the nearest one was kept.  (Two readers that replay
      different things are told apart by some replay function.) */
  lemma {:induction false} UnchangedIffSeedKept(rows: seq<Row>, channel: string, keep: nat, targets: seq<Target>,
                                                 n: nat, t: string)
    requires IsRun(rows, [channel], keep, targets) && n <= |rows|
    ensures Basis(StripAll(rows, targets), n, t, channel) == Basis(rows, n, t, channel) <==>
            var i := Nearest(rows, n, t, channel);
            i.Some? ==> rows[i.value].id in Kept(rows, keep, t, channel)
  {
    var i := Nearest(rows, n, t, channel);
    if i == None {
      BasisKept(rows, targets, n, t, channel);
    } else if rows[i.value].id in Kept(rows, keep, t, channel) {
      KeptRowUnchanged(rows, [channel], keep, targets, i.value, channel);
      BasisKept(rows, targets, n, t, channel);
    } else {
      StrippedWhenNotKept(rows, channel, keep, targets, i.value);
      BasisLost(rows, targets, n, t, channel);
    }
  }

  /** A single-channel run really removes every snapshot it does not keep. */
  lemma {:induction false} StrippedWhenNotKept(rows: seq<Row>, channel: string, keep: nat, targets: seq<Target>, i: nat)
    requires IsRun(rows, [channel], keep, targets) && i < |rows| && IsSnapshot(rows[i], channel)
    requires rows[i].id !in Kept(rows, keep, rows[i].thread, channel)
    ensures StripAll(rows, targets)[i].blob.Values? && channel !in StripAll(rows, targets)[i].blob.values
  {
    var row := rows[i];
    var x := Target(row.thread, row.id, channel);
    SnapshotIdsSorted(rows, row.thread, channel);
    forall y | y in targets
      ensures y.channel == channel
    {
      GatheredOfDistinct(rows, [channel], y.thread, y.channel);
    }
    GatheredOfDistinct(rows, [channel], row.thread, channel);
    var all := SnapshotIds(rows, row.thread, channel);
    assert all == Older(all, keep) + Newest(all, keep);
    assert x.id in Older(Gathered(rows, [channel], x.thread, x.channel), keep);
    assert x in targets && Effective(row, x);
    LastEffectiveIsTarget(row, targets);
  }

  /** After a single-channel run exactly the kept snapshots are left. */
  lemma {:induction false} SnapshotsAfterRun(rows: seq<Row>, channel: string, keep: nat, targets: seq<Target>, n: nat,
                                             t: string)
    requires IsRun(rows, [channel], keep, targets) && n <= |rows|
    ensures forall id :: id in SnapshotIds(StripAll(rows, targets)[..n], t, channel) <==>
                         id in SnapshotIds(rows[..n], t, channel) && id in Kept(rows, keep, t, channel)
  {
    var after := StripAll(rows, targets);
    if n > 0 {
      SnapshotsAfterRun(rows, channel, keep, targets, n - 1, t);
      assert rows[..n][..n - 1] == rows[..n - 1];
      assert after[..n][..n - 1] == after[..n - 1];
      StripKeepsTheRest(rows, targets, n - 1);
      var row := rows[n - 1];
      if row.thread == t && IsSnapshot(row, channel) {
        if row.id in Kept(rows, keep, t, channel) {
          KeptRowUnchanged(rows, [channel], keep, targets, n - 1, channel);
        } else {
          StrippedWhenNotKept(rows, channel, keep, targets, n - 1);
        }
      }
    }
  }

  lemma AfterRunOrdered(rows: seq<Row>, targets: seq<Target>)
    requires Ordered(rows)
    ensures Ordered(StripAll(rows, targets))
  {
    var after := StripAll(rows, targets);
    forall i, j | 0 <= i < j < |after| && after[i].thread == after[j].thread
      ensures after[i].id < after[j].id
    {
      StripKeepsTheRest(rows, targets, i);
      StripKeepsTheRest(rows, targets, j);
    }
  }

  lemma FewLeft(rows: seq<Row>, channel: string, keep: nat, targets: seq<Target>, t: string)
    requires IsRun(rows, [channel], keep, targets)
    ensures |SnapshotIds(StripAll(rows, targets), t, channel)| <= keep
  {
    var after := StripAll(rows, targets);
    AfterRunOrdered(rows, targets);
    SnapshotsAfterRun(rows, channel, keep, targets, |rows|, t);
    assert after[..|rows|] == after && rows[..|rows|] == rows;
    SnapshotIdsAscend(after, t, channel);
    assert forall x :: x in SnapshotIds(after, t, channel) ==> x in Kept(rows, keep, t, channel);
    AscendingSubset(SnapshotIds(after, t, channel), Kept(rows, keep, t, channel));
  }

  /** A second run over the result finds nothing left to strip. */
  lemma {:induction false} SecondRunStripsNothing(rows: seq<Row>, channel: string, keep: nat, targets: seq<Target>,
                                                   again: seq<Target>)
    requires IsRun(rows, [channel], keep, targets)
    requires IsPlan(StripAll(rows, targets), [channel], keep, again)
    ensures again == []
  {
    if again != [] {
      var x := again[0];
      assert x in again;
      FewLeft(rows, channel, keep, targets, x.thread);
      GatheredOfDistinct(StripAll(rows, targets), [channel], x.thread, x.channel);
    }
  }

  /** An ascending list whose members all occur in another list is no longer than it. */
  lemma {:induction false} AscendingSubset(s: seq<nat>, t: seq<nat>)
    requires Ascends(s)
    requires forall x :: x in s ==> x in t
    ensures |s| <= |t|
  {
    if s != [] {
      var n := |s| - 1;
      assert s[n] in s;
      var k :| 0 <= k < |t| && t[k] == s[n];
      var rest := t[..k] + t[k + 1..];
      forall x | x in s[..n]
        ensures x in rest
      {
        assert x in s;
        var j :| 0 <= j < |t| && t[j] == x;
        if j < k { assert rest[j] == x; } else { assert rest[j - 1] == x; }
      }
      AscendingSubset(s[..n], rest);
    }
  }

  // ---------------------------------------------------------------------------------------------
  // The same channel named several times

  /** Each element `m` times in a row. */
  ghost predicate Repeats(s: seq<nat>, g: seq<nat>, m: nat) {
    m > 0 && |g| == |s| * m && forall k :: 0 <= k < |g| ==> k / m < |s| && g[k] == s[k / m]
  }

  /** With a channel named `m` times, each snapshot is listed `m` times in a row. */
  lemma {:induction false} GatheredRepeats(rows: seq<Row>, channels: seq<string>, t: string, ch: string)
    requires Count(channels, ch) > 0
    ensures var m, s, g := Count(channels, ch), SnapshotIds(rows, t, ch), Gathered(rows, channels, t, ch);
            Repeats(s, g, m)
  {
    if rows != [] {
      var n := |rows| - 1;
      GatheredRepeats(rows[..n], channels, t, ch);
      var m, s, g := Count(channels, ch), SnapshotIds(rows[..n], t, ch), Gathered(rows[..n], channels, t, ch);
      if rows[n].thread == t && IsSnapshot(rows[n], ch) {
        assert (|s| + 1) * m == |s| * m + m;
        forall k | |g| <= k < |g| + m
          ensures k / m == |s|
        {
          QuotientAt(|s|, m, k);
        }
      }
    }
  }

  lemma MulGap(a: nat, b: nat, m: nat)
    ensures a < b ==> a * m + m <= b * m
  {
    if a < b {
      assert b * m == (b - 1) * m + m;
      MulGap(a, b - 1, m);
    }
  }

  lemma QuotientAt(q: nat, m: nat, k: nat)
    requires m > 0 && q * m <= k < q * m + m
    ensures k / m == q && k % m == k - q * m
  {
    MulGap(k / m, q, m);
    MulGap(q, k / m, m);
    assert k == (k / m) * m + k % m;
  }

  /** An id is both among the kept and among the targets exactly when its channel is named `m` times, the list is
      longer than `keep`, and `keep` is not a multiple of `m`. */
  lemma {:induction false} KeptAndTargetedIff(rows: seq<Row>, channels: seq<string>, keep: nat, t: string, ch: string)
    requires Ordered(rows) && keep >= 1 && Count(channels, ch) > 0
    ensures var m := Count(channels, ch);
            (exists id :: InBoth(rows, channels, keep, t, ch, id)) <==>
            |SnapshotIds(rows, t, ch)| * m > keep && keep % m != 0
  {
    SnapshotIdsSorted(rows, t, ch);
    var source := GatheredSource(rows, channels, keep, t, ch);
    var g := Gathered(rows, channels, t, ch);
    if |g| > keep {
      OverlapIff(SnapshotIds(rows, t, ch), g, source, keep, keep % Count(channels, ch) != 0);
    }
    assert forall id :: InBoth(rows, channels, keep, t, ch, id) <==> id in Older(g, keep) && id in Newest(g, keep);
  }

  /** A run that names one channel only, any number of times. */
  ghost predicate IsRepeatedRun(rows: seq<Row>, channels: seq<string>, ch: string, keep: nat, targets: seq<Target>) {
    && Ordered(rows) && keep >= 1 && IsPlan(rows, channels, keep, targets)
    && channels != [] && AllAre(channels, ch)
  }

  ghost predicate AllAre(channels: seq<string>, ch: string) {
    forall i :: 0 <= i < |channels| ==> channels[i] == ch
  }

  /** Such a run leaves what every reader of the newest value replays unchanged if and only if the thread has no
      snapshot or the channel is named at most `keep` times: named twice with the default `keep` of 1, it strips the
      newest snapshot of every thread. */
  lemma {:induction false} RepeatedChannelIff(rows: seq<Row>, channels: seq<string>, ch: string, keep: nat,
                                              targets: seq<Target>, t: string)
    requires IsRepeatedRun(rows, channels, ch, keep, targets)
    ensures Basis(StripAll(rows, targets), |rows|, t, ch) == Basis(rows, |rows|, t, ch) <==>
            SnapshotIds(rows, t, ch) == [] || keep >= |channels|
  {
    assert rows[..|rows|] == rows;
    NearestIsLast(rows, |rows|, t, ch);
    var i := Nearest(rows, |rows|, t, ch);
    if i.None? {
      BasisKept(rows, targets, |rows|, t, ch);
    } else {
      CountOfOne(channels, ch);
      LastIsOlderIff(rows, channels, keep, t, ch);
      LostIffOlder(rows, channels, ch, keep, targets, i.value);
      if keep >= |channels| {
        BasisKept(rows, targets, |rows|, t, ch);
      } else {
        BasisLost(rows, targets, |rows|, t, ch);
      }
    }
  }

  /** And it strips a snapshot that is listed as kept if and only if the list is longer than `keep` and `keep` is not
      a multiple of the number of times the channel is named. */
  lemma {:induction false} KeptIsStrippedIff(rows: seq<Row>, channels: seq<string>, ch: string, keep: nat,
                                             targets: seq<Target>, t: string)
    requires IsRepeatedRun(rows, channels, ch, keep, targets)
    ensures (exists i :: 0 <= i < |rows| && KeptButStripped(rows, channels, ch, keep, targets, t, i)) <==>
            |SnapshotIds(rows, t, ch)| * |channels| > keep && keep % |channels| != 0
  {
    CountOfOne(channels, ch);
    KeptAndTargetedIff(rows, channels, keep, t, ch);
    forall id | InBoth(rows, channels, keep, t, ch, id)
      ensures exists i :: 0 <= i < |rows| && KeptButStripped(rows, channels, ch, keep, targets, t, i)
    {
      BothIsStripped(rows, channels, ch, keep, targets, t, id);
    }
    forall i | 0 <= i < |rows| && KeptButStripped(rows, channels, ch, keep, targets, t, i)
      ensures InBoth(rows, channels, keep, t, ch, rows[i].id)
    {
      LostIffOlder(rows, channels, ch, keep, targets, i);
    }
  }

  ghost predicate InBoth(rows: seq<Row>, channels: seq<string>, keep: nat, t: string, ch: string, id: nat) {
    id in Older(Gathered(rows, channels, t, ch), keep) && id in Newest(Gathered(rows, channels, t, ch), keep)
  }

  lemma BothIsStripped(rows: seq<Row>, channels: seq<string>, ch: string, keep: nat, targets: seq<Target>,
                       t: string, id: nat)
    requires IsRepeatedRun(rows, channels, ch, keep, targets) && InBoth(rows, channels, keep, t, ch, id)
    ensures exists i :: 0 <= i < |rows| && KeptButStripped(rows, channels, ch, keep, targets, t, i)
  {
    GatheredAreSnapshots(rows, channels, t, ch, id);
    var i :| 0 <= i < |rows| && rows[i].thread == t && rows[i].id == id && IsSnapshot(rows[i], ch);
    LostIffOlder(rows, channels, ch, keep, targets, i);
    assert KeptButStripped(rows, channels, ch, keep, targets, t, i);
  }

  /** The row is in the list of kept snapshots, and after the run its snapshot is gone. */
  ghost predicate KeptButStripped(rows: seq<Row>, channels: seq<string>, ch: string, keep: nat, targets: seq<Target>,
                                  t: string, i: nat)
    requires i < |rows|
  {
    && rows[i].thread == t && IsSnapshot(rows[i], ch)
    && rows[i].id in Newest(Gathered(rows, channels, t, ch), keep)
    && !IsSnapshot(StripAll(rows, targets)[i], ch)
  }

  lemma {:induction false} CountOfOne(channels: seq<string>, ch: string)
    requires AllAre(channels, ch)
    ensures Count(channels, ch) == |channels| && forall c :: c != ch ==> Count(channels, c) == 0
  {
    if channels != [] {
      var n := |channels| - 1;
      CountOfOne(channels[..n], ch);
    }
  }

  lemma {:induction false} GatheredOfNone(rows: seq<Row>, channels: seq<string>, t: string, ch: string)
    requires Count(channels, ch) == 0
    ensures Gathered(rows, channels, t, ch) == []
  {
    if rows != [] { GatheredOfNone(rows[..|rows| - 1], channels, t, ch); }
  }

  /** With one channel named, a snapshot is lost exactly when it is among the older ones of its list. */
  lemma LostIffOlder(rows: seq<Row>, channels: seq<string>, ch: string, keep: nat, targets: seq<Target>, i: nat)
    requires IsRepeatedRun(rows, channels, ch, keep, targets) && i < |rows| && IsSnapshot(rows[i], ch)
    ensures !IsSnapshot(StripAll(rows, targets)[i], ch) <==>
            rows[i].id in Older(Gathered(rows, channels, rows[i].thread, ch), keep)
  {
    var row := rows[i];
    var x := Target(row.thread, row.id, ch);
    assert x in targets <==> x.id in Older(Gathered(rows, channels, x.thread, x.channel), keep);
    LastEffectiveIsTarget(row, targets);
    match LastEffective(row, targets) {
      case None => assert x in targets ==> !Effective(row, x);
      case Some(c) =>
        OnlyThisChannel(rows, channels, ch, keep, targets, Target(row.thread, row.id, c));
    }
  }

  lemma OnlyThisChannel(rows: seq<Row>, channels: seq<string>, ch: string, keep: nat, targets: seq<Target>, x: Target)
    requires IsRepeatedRun(rows, channels, ch, keep, targets) && x in targets
    ensures x.channel == ch
  {
    CountOfOne(channels, ch);
    if x.channel != ch { GatheredOfNone(rows, channels, x.thread, x.channel); }
  }

  /** The newest snapshot is among the older entries exactly when its copies outnumber what is kept. */
  lemma LastIsOlderIff(rows: seq<Row>, channels: seq<string>, keep: nat, t: string, ch: string)
    requires Ordered(rows) && keep >= 1 && Count(channels, ch) > 0 && SnapshotIds(rows, t, ch) != []
    ensures var s := SnapshotIds(rows, t, ch);
            s[|s| - 1] in Older(Gathered(rows, channels, t, ch), keep) <==> Count(channels, ch) > keep
  {
    var m, s, g := Count(channels, ch), SnapshotIds(rows, t, ch), Gathered(rows, channels, t, ch);
    var n := |s| - 1;
    GatheredRepeats(rows, channels, t, ch);
    SnapshotIdsSorted(rows, t, ch);
    var start := LastCopies(s, g, m);
    CutAtLast(s[n], g, start, m, keep);
  }

  lemma LastCopies(s: seq<nat>, g: seq<nat>, m: nat) returns (start: nat)
    requires s != [] && Ascends(s) && Repeats(s, g, m)
    ensures |g| == start + m
    ensures forall k :: 0 <= k < |g| ==> if k < start then g[k] < s[|s| - 1] else g[k] == s[|s| - 1]
  {
    var n := |s| - 1;
    start := n * m;
    assert |s| * m == n * m + m;
    forall k | 0 <= k < |g|
      ensures if k < start then g[k] < s[n] else g[k] == s[n]
    {
      if k < start { BelowQuotient(k, n, m); } else { QuotientAt(n, m, k); }
    }
  }

  lemma CutAtLast(last: nat, g: seq<nat>, start: nat, m: nat, keep: nat)
    requires |g| == start + m && keep >= 1
    requires forall k :: 0 <= k < |g| ==> if k < start then g[k] < last else g[k] == last
    ensures last in Older(g, keep) <==> m > keep
  {
    if m > keep {
      assert Older(g, keep)[start] == last;
    } else {
      assert forall k :: 0 <= k < |Older(g, keep)| ==> Older(g, keep)[k] == g[k];
    }
  }

  /** One snapshot, its channel named twice, one snapshot to keep: the snapshot is kept and gone. */
  lemma {:induction false} NamedTwice()
    ensures var rows := [Row("t", 1, Values(map["c" := Snapshot("v")]))];
            var targets := [Target("t", 1, "c")];
            && IsRepeatedRun(rows, ["c", "c"], "c", 1, targets)
            && KeptButStripped(rows, ["c", "c"], "c", 1, targets, "t", 0)
            && Basis(rows, 1, "t", "c") == (Some("v"), [])
            && Basis(StripAll(rows, targets), 1, "t", "c") == (None, [1])
  {
    var row := Row("t", 1, Values(map["c" := Snapshot("v")]));
    var targets := [Target("t", 1, "c")];
    CountOfOne(["c", "c"], "c");
    assert [1, 1][..1] == [1] && [1, 1][1..] == [1];
    GatheredOne(row, ["c", "c"]);
    forall x: Target
      ensures Gathered([row], ["c", "c"], x.thread, x.channel) ==
              if x.thread == "t" && x.channel == "c" then [1, 1] else []
    {
    }
    assert forall x: Target :: x in targets <==> x.id in Older(Gathered([row], ["c", "c"], x.thread, x.channel), 1);
    LostIffOlder([row], ["c", "c"], "c", 1, targets, 0);
    NamedTwiceBasis(row, targets);
  }

  lemma NamedTwiceBasis(row: Row, targets: seq<Target>)
    requires row.thread == "t" && row.id == 1 && IsSnapshot(row, "c") && !IsSnapshot(StripAll([row], targets)[0], "c")
    ensures Basis([row], 1, "t", "c") == (Some(row.blob.values["c"].content), [])
    ensures Basis(StripAll([row], targets), 1, "t", "c") == (None, [1])
  {
    StripKeepsTheRest([row], targets, 0);
    var after := StripAll([row], targets);
    var n: nat := 1;
    assert after[n - 1].thread == "t" && after[n - 1].id == 1 && !IsSnapshot(after[n - 1], "c");
    var none: seq<nat> := [];
    assert Basis(after, n - 1, "t", "c") == (None, none);
    assert none + [1] == [1];
    assert Basis(after, n, "t", "c") == (None, none + [1]);
  }

  lemma GatheredOne(row: Row, channels: seq<string>)
    ensures forall t, ch :: Gathered([row], channels, t, ch) == Contribution(row, channels, t, ch)
  {
    assert [row][..0] == [];
  }

  /** Which snapshot each listed entry repeats, and whether the cut falls between two repeats of one. */
  lemma GatheredSource(rows: seq<Row>, channels: seq<string>, keep: nat, t: string, ch: string)
    returns (source: seq<nat>)
    requires Count(channels, ch) > 0 && keep >= 1
    ensures var m, s, g := Count(channels, ch), SnapshotIds(rows, t, ch), Gathered(rows, channels, t, ch);
            && |g| == |s| * m && |source| == |g|
            && (forall k :: 0 <= k < |g| ==> source[k] < |s| && g[k] == s[source[k]])
            && (|g| > keep ==>
                  var p := |g| - keep;
                  if keep % m != 0 then source[p - 1] == source[p]
                  else forall i, j :: 0 <= i < p && p <= j < |g| ==> source[i] < source[j])
  {
    var m, s, g := Count(channels, ch), SnapshotIds(rows, t, ch), Gathered(rows, channels, t, ch);
    GatheredRepeats(rows, channels, t, ch);
    source := SourceOf(s, g, m);
    if |g| > keep {
      BoundaryRemainder(|s|, m, keep);
      Sources(source, m, |g| - keep);
    }
  }

  lemma SourceOf(s: seq<nat>, g: seq<nat>, m: nat) returns (source: seq<nat>)
    requires Repeats(s, g, m)
    ensures |source| == |g|
    ensures forall k :: 0 <= k < |g| ==> source[k] == k / m && source[k] < |s| && g[k] == s[source[k]]
  {
    source := seq(|g|, k requires 0 <= k < |g| => k / m);
  }

  lemma OverlapIff(s: seq<nat>, g: seq<nat>, source: seq<nat>, keep: nat, split: bool)
    requires 0 < keep < |g| == |source|
    requires forall k :: 0 <= k < |g| ==> source[k] < |s| && g[k] == s[source[k]]
    requires Ascends(s)
    requires var p := |g| - keep;
             if split then source[p - 1] == source[p]
             else forall i, j :: 0 <= i < p && p <= j < |g| ==> source[i] < source[j]
    ensures (exists id :: id in Older(g, keep) && id in Newest(g, keep)) <==> split
  {
    if split {
      OverlapAt(s, g, source, keep);
    } else {
      NoOverlap(s, g, source, |g| - keep);
    }
  }

  lemma Sources(source: seq<nat>, m: nat, p: nat)
    requires m > 0 && 0 < p < |source| && forall k :: 0 <= k < |source| ==> source[k] == k / m
    ensures p % m != 0 ==> source[p - 1] == source[p]
    ensures p % m == 0 ==> forall i, j :: 0 <= i < p && p <= j < |source| ==> source[i] < source[j]
  {
    if p % m != 0 {
      SameQuotient(p, m);
    } else {
      forall i, j | 0 <= i < p && p <= j < |source|
        ensures source[i] < source[j]
      {
        QuotientSplit(p, m, i, j);
      }
    }
  }

  lemma OverlapAt(s: seq<nat>, g: seq<nat>, source: seq<nat>, keep: nat)
    requires 0 < keep < |g| == |source|
    requires forall k :: 0 <= k < |g| ==> source[k] < |s| && g[k] == s[source[k]]
    requires source[|g| - keep - 1] == source[|g| - keep]
    ensures exists id :: id in Older(g, keep) && id in Newest(g, keep)
  {
    var p := |g| - keep;
    assert g[..p][p - 1] == g[p - 1] && g[p..][0] == g[p];
    assert g[p] in Older(g, keep) && g[p] in Newest(g, keep);
  }

  lemma NoOverlap(s: seq<nat>, g: seq<nat>, source: seq<nat>, p: nat)
    requires p <= |g| == |source|
    requires forall k :: 0 <= k < |g| ==> source[k] < |s| && g[k] == s[source[k]]
    requires forall i, j :: 0 <= i < p && p <= j < |g| ==> source[i] < source[j]
    requires Ascends(s)
    ensures forall id :: !(id in g[..p] && id in g[p..])
  {
  }

  lemma SameQuotient(p: nat, m: nat)
    requires m > 0 && p % m != 0
    ensures p > 0 && (p - 1) / m == p / m
  {
    assert p == (p / m) * m + p % m;
    QuotientAt(p / m, m, p - 1);
  }

  lemma BelowQuotient(a: nat, q: nat, m: nat)
    requires m > 0 && a < q * m
    ensures a / m < q
  {
    assert a == (a / m) * m + a % m;
    MulGap(q, a / m, m);
    MulGap(a / m, q, m);
  }

  lemma QuotientSplit(p: nat, m: nat, i: nat, j: nat)
    requires m > 0 && p % m == 0 && i < p <= j
    ensures i / m < j / m
  {
    var q := p / m;
    assert p == q * m;
    BelowQuotient(i, q, m);
    if j / m < q {
      assert j == (j / m) * m + j % m;
      MulGap(j / m, q, m);
    }
  }

  lemma BoundaryRemainder(n: nat, m: nat, keep: nat)
    requires m > 0 && n * m > keep
    ensures (n * m - keep) % m == 0 <==> keep % m == 0
  {
    var a, b := keep / m, keep % m;
    assert keep == a * m + b;
    MulGap(n, a, m);
    MulGap(a, n, m);
    Difference(n, a, m);
    if b == 0 {
      QuotientAt(n - a, m, n * m - keep);
    } else {
      Difference(n - 1, a, m);
      assert (n - 1) * m == n * m - m;
      QuotientAt(n - 1 - a, m, n * m - keep);
    }
  }

  lemma Difference(n: nat, a: nat, m: nat)
    requires a <= n
    ensures (n - a) * m == n * m - a * m
  {
  }
}
