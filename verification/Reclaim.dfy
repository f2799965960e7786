/** Dropping redundant channel snapshots from the checkpoint store
    (scripts/reclaim_checkpoint_snapshots.py): scan, choose targets, rewrite blobs. */
module Reclaim {
  import opened Wrappers

  datatype Value = Snapshot(content: string) | Plain(content: string)

  /** A checkpoint blob: not decodable, decoded without a `channel_values` dictionary, or with one. */
  datatype Blob = Unreadable | NoValues | Values(values: map<string, Value>)

  datatype Row = Row(thread: string, id: nat, blob: Blob)

  datatype Target = Target(thread: string, id: nat, channel: string)

  predicate IsSnapshot(row: Row, channel: string) {
    row.blob.Values? && channel in row.blob.values && row.blob.values[channel].Snapshot?
  }

  /** The rows as `ORDER BY thread_id, checkpoint_id` delivers them: ids ascend within each thread. */
  ghost predicate Ordered(rows: seq<Row>) {
    forall i, j :: 0 <= i < j < |rows| && rows[i].thread == rows[j].thread ==> rows[i].id < rows[j].id
  }

  // ---------------------------------------------------------------------------------------------
  // Scanning

  /** The checkpoints of one thread that hold a snapshot of one channel, oldest first. */
  function SnapshotIds(rows: seq<Row>, t: string, ch: string): seq<nat> {
    if rows == [] then []
    else
      var row := rows[|rows| - 1];
      SnapshotIds(rows[..|rows| - 1], t, ch) + if row.thread == t && IsSnapshot(row, ch) then [row.id] else []
  }

  function Count(channels: seq<string>, ch: string): nat {
    if channels == [] then 0
    else Count(channels[..|channels| - 1], ch) + if channels[|channels| - 1] == ch then 1 else 0
  }

  function Copies(id: nat, m: nat): (r: seq<nat>)
    ensures |r| == m && forall k :: 0 <= k < m ==> r[k] == id
  {
    seq(m, _ => id)
  }

  /** What one row adds to the list of one thread and channel. */
  function Contribution(row: Row, channels: seq<string>, t: string, ch: string): seq<nat> {
    if row.thread == t && IsSnapshot(row, ch) then Copies(row.id, Count(channels, ch)) else []
  }

  /** What the scan records: every snapshot once for each time its channel was named. */
  function Gathered(rows: seq<Row>, channels: seq<string>, t: string, ch: string): seq<nat> {
    if rows == [] then []
    else Gathered(rows[..|rows| - 1], channels, t, ch) + Contribution(rows[|rows| - 1], channels, t, ch)
  }

  type Found = map<(string, string), seq<nat>>

  function Entry(found: Found, t: string, ch: string): seq<nat> {
    if (t, ch) in found then found[(t, ch)] else []
  }

  /** `scan_snapshots` */
  method ScanSnapshots(rows: seq<Row>, channels: seq<string>) returns (found: Found)
    ensures forall t, ch :: Entry(found, t, ch) == Gathered(rows, channels, t, ch)
  {
    found := map[];
    for i := 0 to |rows|
      invariant forall t, ch :: Entry(found, t, ch) == Gathered(rows[..i], channels, t, ch)
    {
      ghost var before := found;
      found := ScanRow(rows[i], channels, found);
      assert rows[..i + 1][..i] == rows[..i];
      forall t, ch
        ensures Entry(found, t, ch) == Gathered(rows[..i + 1], channels, t, ch)
      {
        assert Entry(found, t, ch) == Entry(before, t, ch) + Contribution(rows[i], channels, t, ch);
      }
    }
    assert rows[..|rows|] == rows;
  }

  method ScanRow(row: Row, channels: seq<string>, before: Found) returns (found: Found)
    ensures forall t, ch :: Entry(found, t, ch) == Entry(before, t, ch) + Contribution(row, channels, t, ch)
  {
    found := before;
    if !row.blob.Values? { return; }
    for j := 0 to |channels|
      invariant forall t, ch :: Entry(found, t, ch) == Entry(before, t, ch) + Contribution(row, channels[..j], t, ch)
    {
      var channel := channels[j];
      ghost var sofar := found;
      if IsSnapshot(row, channel) {
        found := found[(row.thread, channel) := Entry(found, row.thread, channel) + [row.id]];
      }
      forall t, ch
        ensures Entry(found, t, ch) == Entry(before, t, ch) + Contribution(row, channels[..j + 1], t, ch)
      {
        EntryGrows(row, channels, j, t, ch, before, sofar, found);
      }
    }
    assert channels[..|channels|] == channels;
  }

  lemma EntryGrows(row: Row, channels: seq<string>, j: nat, t: string, ch: string, before: Found,
                   sofar: Found, found: Found)
    requires j < |channels| && Entry(sofar, t, ch) == Entry(before, t, ch) + Contribution(row, channels[..j], t, ch)
    requires found == if IsSnapshot(row, channels[j])
                      then sofar[(row.thread, channels[j]) := Entry(sofar, row.thread, channels[j]) + [row.id]]
                      else sofar
    ensures Entry(found, t, ch) == Entry(before, t, ch) + Contribution(row, channels[..j + 1], t, ch)
  {
    ContributionGrows(row, channels, j, t, ch);
    var more := if t == row.thread && ch == channels[j] && IsSnapshot(row, ch) then [row.id] else [];
    assert Entry(found, t, ch) == Entry(sofar, t, ch) + more;
    assert Entry(before, t, ch) + Contribution(row, channels[..j], t, ch) + more ==
           Entry(before, t, ch) + (Contribution(row, channels[..j], t, ch) + more);
  }

  lemma ContributionGrows(row: Row, channels: seq<string>, j: nat, t: string, ch: string)
    requires j < |channels|
    ensures Contribution(row, channels[..j + 1], t, ch) == Contribution(row, channels[..j], t, ch) +
            if t == row.thread && ch == channels[j] && IsSnapshot(row, ch) then [row.id] else []
  {
    assert channels[..j + 1][..j] == channels[..j];
  }

  // ---------------------------------------------------------------------------------------------
  // Choosing targets

  /** `rows[:-keep]` and `rows[-keep:]` */
  function Older(ids: seq<nat>, keep: nat): seq<nat> {
    if |ids| <= keep then [] else ids[..|ids| - keep]
  }

  function Newest(ids: seq<nat>, keep: nat): seq<nat> {
    if |ids| <= keep then ids else ids[|ids| - keep..]
  }

  ghost predicate IsPlan(rows: seq<Row>, channels: seq<string>, keep: nat, targets: seq<Target>) {
    forall x: Target :: x in targets <==> x.id in Older(Gathered(rows, channels, x.thread, x.channel), keep)
  }

  method SelectTargets(found: Found, keep: nat) returns (targets: seq<Target>, kept: seq<Target>)
    ensures forall x: Target :: x in targets <==> x.id in Older(Entry(found, x.thread, x.channel), keep)
    ensures forall x: Target :: x in kept <==> x.id in Newest(Entry(found, x.thread, x.channel), keep)
  {
    targets, kept := [], [];
    var todo := found.Keys;
    while todo != {}
      invariant todo <= found.Keys
      invariant forall x: Target :: x in targets <==>
        (x.thread, x.channel) !in todo && x.id in Older(Entry(found, x.thread, x.channel), keep)
      invariant forall x: Target :: x in kept <==>
        (x.thread, x.channel) !in todo && x.id in Newest(Entry(found, x.thread, x.channel), keep)
    {
      var key :| key in todo;
      todo := todo - {key};
      var older := Tag(key, Older(found[key], keep));
      var newest := Tag(key, Newest(found[key], keep));
      targets, kept := targets + older, kept + newest;
    }
  }

  function Tag(key: (string, string), ids: seq<nat>): (r: seq<Target>)
    ensures forall x :: x in r <==> x.thread == key.0 && x.channel == key.1 && x.id in ids
  {
    if ids == [] then [] else [Target(key.0, ids[0], key.1)] + Tag(key, ids[1..])
  }

  // ---------------------------------------------------------------------------------------------
  // Rewriting blobs

  predicate Matches(row: Row, x: Target) {
    row.thread == x.thread && row.id == x.id
  }

  predicate Effective(row: Row, x: Target) {
    Matches(row, x) && row.blob.Values? && x.channel in row.blob.values
  }

  /** The channel a row loses: every update is computed from the row as it was before the run, so of several
      updates of one row the last one written stands. */
  function LastEffective(row: Row, targets: seq<Target>): Option<string> {
    if targets == [] then None
    else if Effective(row, targets[|targets| - 1]) then Some(targets[|targets| - 1].channel)
    else LastEffective(row, targets[..|targets| - 1])
  }

  function StripRow(row: Row, targets: seq<Target>): Row {
    match LastEffective(row, targets)
    case None => row
    case Some(ch) => if row.blob.Values? then row.(blob := Values(row.blob.values - {ch})) else row
  }

  function StripAll(rows: seq<Row>, targets: seq<Target>): (r: seq<Row>)
    ensures |r| == |rows|
    ensures forall i :: 0 <= i < |rows| ==> r[i] == StripRow(rows[i], targets)
  {
    seq(|rows|, i requires 0 <= i < |rows| => StripRow(rows[i], targets))
  }

  ghost predicate UniqueKeys(rows: seq<Row>) {
    forall i, j :: 0 <= i < j < |rows| && rows[i].thread == rows[j].thread ==> rows[i].id != rows[j].id
  }

  /** One `UPDATE checkpoints SET checkpoint = ? WHERE thread_id = ? AND checkpoint_id = ?` */
  function Update(rows: seq<Row>, x: Target, blob: Blob): (r: seq<Row>)
    ensures |r| == |rows|
    ensures forall i :: 0 <= i < |rows| ==> r[i] == if Matches(rows[i], x) then rows[i].(blob := blob) else rows[i]
  {
    seq(|rows|, i requires 0 <= i < |rows| => if Matches(rows[i], x) then rows[i].(blob := blob) else rows[i])
  }

  ghost predicate SameRow(rows: seq<Row>, x: Target, found: Option<Row>) {
    match found
    case None => forall i :: 0 <= i < |rows| ==> !Matches(rows[i], x)
    case Some(row) => row in rows && Matches(row, x)
  }

  /** `SELECT checkpoint ... fetchone()` */
  method Select(rows: seq<Row>, x: Target) returns (found: Option<Row>)
    ensures SameRow(rows, x, found)
  {
    for i := 0 to |rows|
      invariant forall j :: 0 <= j < i ==> !Matches(rows[j], x)
    {
      if Matches(rows[i], x) {
        return Some(rows[i]);
      }
    }
    return None;
  }

  /** `strip_snapshots`: first every new blob is computed, then all are written in one transaction.
      Decoding a targeted row that is not readable raises before anything is written. */
  method StripSnapshots(rows: seq<Row>, targets: seq<Target>) returns (r: Result<seq<Row>, ()>)
    requires UniqueKeys(rows)
    ensures r.Ok? ==> r.value == StripAll(rows, targets)
    ensures r.Err? <==> exists i, k :: 0 <= i < |rows| && 0 <= k < |targets| &&
                          Matches(rows[i], targets[k]) && rows[i].blob.Unreadable?
  {
    var updates: seq<(Target, Blob)> := [];
    for k := 0 to |targets|
      invariant forall i, j :: 0 <= i < |rows| && 0 <= j < k && Matches(rows[i], targets[j]) ==>
                                 !rows[i].blob.Unreadable?
      invariant forall i :: 0 <= i < |rows| ==> LastBlob(rows[i], updates) == StripRow(rows[i], targets[..k]).blob
    {
      var x := targets[k];
      assert targets[..k + 1][..k] == targets[..k];
      var row := Select(rows, x);
      if row.Some? {
        if row.value.blob.Unreadable? { return Err(()); }
        if row.value.blob.Values? && x.channel in row.value.blob.values {
          updates := updates + [(x, Values(row.value.blob.values - {x.channel}))];
        }
      }
    }
    assert targets[..|targets|] == targets;
    var table := rows;
    for k := 0 to |updates|
      invariant |table| == |rows|
      invariant forall i :: 0 <= i < |rows| ==> table[i] == rows[i].(blob := LastBlob(rows[i], updates[..k]))
    {
      assert updates[..k + 1][..k] == updates[..k];
      table := Update(table, updates[k].0, updates[k].1);
    }
    assert updates[..|updates|] == updates;
    return Ok(table);
  }

  /** The blob a row has once the given updates have been written in order. */
  function LastBlob(row: Row, updates: seq<(Target, Blob)>): Blob {
    if updates == [] then row.blob
    else if Matches(row, updates[|updates| - 1].0) then updates[|updates| - 1].1
    else LastBlob(row, updates[..|updates| - 1])
  }

  /** `main` without its reporting: refuses `keep < 1`, otherwise scan, select, strip. */
  method Reclaim(rows: seq<Row>, channels: seq<string>, keep: int)
    returns (r: Result<seq<Row>, ()>, targets: seq<Target>)
    requires Ordered(rows)
    ensures r.Err? <==> keep < 1
    ensures r.Ok? ==> IsPlan(rows, channels, keep, targets) && r.value == StripAll(rows, targets)
  {
    targets := [];
    if keep < 1 { return Err(()), targets; }
    var found := ScanSnapshots(rows, channels);
    var kept;
    targets, kept := SelectTargets(found, keep);
    PlanIsReadable(rows, channels, keep, targets);
    r := StripSnapshots(rows, targets);
  }

  /** Targets come out of rows that could be read, so reading them again cannot fail. */
  lemma {:induction false} PlanIsReadable(rows: seq<Row>, channels: seq<string>, keep: nat, targets: seq<Target>)
    requires UniqueKeys(rows) && IsPlan(rows, channels, keep, targets)
    ensures forall i, k :: 0 <= i < |rows| && 0 <= k < |targets| && Matches(rows[i], targets[k]) ==>
                             !rows[i].blob.Unreadable?
  {
    forall i, k | 0 <= i < |rows| && 0 <= k < |targets| && Matches(rows[i], targets[k])
      ensures !rows[i].blob.Unreadable?
    {
      var x := targets[k];
      assert x in targets;
      GatheredAreSnapshots(rows, channels, x.thread, x.channel, x.id);
      var j :| 0 <= j < |rows| && rows[j].thread == x.thread && rows[j].id == x.id && IsSnapshot(rows[j], x.channel);
      assert j == i;
    }
  }

  lemma {:induction false} GatheredAreSnapshots(rows: seq<Row>, channels: seq<string>, t: string, ch: string, id: nat)
    requires id in Gathered(rows, channels, t, ch)
    ensures exists i :: 0 <= i < |rows| && rows[i].thread == t && rows[i].id == id && IsSnapshot(rows[i], ch)
  {
    var n := |rows| - 1;
    if id in Gathered(rows[..n], channels, t, ch) {
      GatheredAreSnapshots(rows[..n], channels, t, ch, id);
      var i :| 0 <= i < n && rows[..n][i].thread == t && rows[..n][i].id == id && IsSnapshot(rows[..n][i], ch);
      assert rows[i] == rows[..n][i];
    } else {
      assert rows[n].thread == t && rows[n].id == id && IsSnapshot(rows[n], ch);
    }
  }
}
