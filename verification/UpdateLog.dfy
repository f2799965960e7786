/** The bounded replay history of one session (src/synapse/acp/lifecycle.py:133-189): every append may overwrite
    an entry and is followed by a prune to the most recent keys. */
module UpdateLog {
  import Collections

  const MAX_UPDATES: nat := 2000

  /** `(sequence, update_index)` */
  type Key = (int, int)

  /** The text of an `update_json` column, as reading it back finds it. */
  datatype Payload = JsonObject(text: string) | Unreadable(text: string)

  type Log = map<Key, Payload>

  datatype Append = Append(key: Key, payload: Payload)

  predicate Less(a: Key, b: Key) {
    a.0 < b.0 || (a.0 == b.0 && a.1 < b.1)
  }

  function Above(keys: set<Key>, k: Key): set<Key> {
    set j | j in keys && Less(k, j)
  }

  /** The first `n` rows of `ORDER BY sequence DESC, update_index DESC`: those with fewer than `n` above them. */
  function Top(keys: set<Key>, n: nat): set<Key> {
    set k | k in keys && |Above(keys, k)| < n
  }

  /** `_prune_updates` */
  function Prune(log: Log, n: nat): Log {
    map k | k in log && k in Top(log.Keys, n) :: log[k]
  }

  /** `append_update` for an existing session */
  function AppendTo(log: Log, a: Append, n: nat): Log {
    Prune(log[a.key := a.payload], n)
  }

  /** The stored log after a sequence of appends. */
  function Stored(appends: seq<Append>, n: nat): Log {
    if appends == [] then map[]
    else AppendTo(Stored(appends[..|appends| - 1], n), appends[|appends| - 1], n)
  }

  /** The same appends with nothing ever pruned. */
  function History(appends: seq<Append>): Log {
    if appends == [] then map[]
    else History(appends[..|appends| - 1])[appends[|appends| - 1].key := appends[|appends| - 1].payload]
  }

  // ---------------------------------------------------------------------------------------------
  // Counting from the top

  lemma {:induction false} Highest(keys: set<Key>) returns (m: Key)
    requires keys != {}
    ensures m in keys && forall k :: k in keys ==> k == m || Less(k, m)
  {
    m :| m in keys;
    var others := keys - {m};
    assert keys == others + {m};
    if others != {} {
      var rest := Highest(others);
      if Less(m, rest) { m := rest; }
    }
  }

  lemma TopWithoutHighest(keys: set<Key>, m: Key, n: nat)
    requires n > 0 && m in keys && forall k :: k in keys ==> k == m || Less(k, m)
    ensures Top(keys, n) == Top(keys - {m}, n - 1) + {m} && m !in Top(keys - {m}, n - 1)
  {
    var rest := keys - {m};
    assert Above(keys, m) == {};
    forall k | k in rest
      ensures |Above(keys, k)| == |Above(rest, k)| + 1
    {
      assert Above(keys, k) == Above(rest, k) + {m};
    }
  }

  lemma TopEmpty(keys: set<Key>, n: nat)
    requires keys == {} || n == 0
    ensures Top(keys, n) == {}
  {
  }

  lemma OneMore(keys: set<Key>, rest: set<Key>, top: set<Key>, restTop: set<Key>, m: Key, n: nat)
    requires n > 0 && m in keys && rest == keys - {m}
    requires top == restTop + {m} && m !in restTop
    requires |restTop| == if |rest| <= n - 1 then |rest| else n - 1
    ensures |top| == if |keys| <= n then |keys| else n
  {
    assert |rest| == |keys| - 1;
  }

  lemma TopSizeStep(keys: set<Key>, m: Key, n: nat)
    requires n > 0 && m in keys && forall k :: k in keys ==> k == m || Less(k, m)
    requires |Top(keys - {m}, n - 1)| == if |keys - {m}| <= n - 1 then |keys - {m}| else n - 1
    ensures |Top(keys, n)| == if |keys| <= n then |keys| else n
  {
    TopWithoutHighest(keys, m, n);
    OneMore(keys, keys - {m}, Top(keys, n), Top(keys - {m}, n - 1), m, n);
  }

  /** There are `n` top keys, or all of them. */
  lemma {:induction false} TopSize(keys: set<Key>, n: nat)
    ensures |Top(keys, n)| == if |keys| <= n then |keys| else n
    decreases |keys|
  {
    if keys == {} || n == 0 {
      TopEmpty(keys, n);
    } else {
      var m := Highest(keys);
      assert |keys - {m}| < |keys|;
      TopSize(keys - {m}, n - 1);
      TopSizeStep(keys, m, n);
    }
  }

  /** Keys below a full top: every top key is above them. */
  lemma TopIsAbove(keys: set<Key>, n: nat, x: Key)
    requires x in keys && x !in Top(keys, n)
    ensures Top(keys, n) <= Above(keys, x) && |Top(keys, n)| == n
  {
    forall b | b in Top(keys, n)
      ensures Less(x, b)
    {
      if !Less(x, b) {
        assert Above(keys, x) <= Above(keys, b);
        Collections.SubsetIsSmaller(Above(keys, x), Above(keys, b));
      }
    }
    TopSize(keys, n);
    if |keys| <= n {
      Collections.SubsetIsSmaller(Above(keys, x), keys - {x});
    }
  }

  /** Pruning before an insertion makes no difference to pruning after it. */
  lemma {:induction false} TopAfterInsert(keys: set<Key>, k: Key, n: nat)
    ensures Top(Top(keys, n) + {k}, n) == Top(keys + {k}, n)
  {
    var kept, all := Top(keys, n) + {k}, keys + {k};
    forall j | j in Top(all, n)
      ensures j in Top(kept, n)
    {
      assert Above(kept, j) <= Above(all, j);
      Collections.SubsetIsSmaller(Above(kept, j), Above(all, j));
      if j != k {
        assert Above(keys, j) <= Above(all, j);
        Collections.SubsetIsSmaller(Above(keys, j), Above(all, j));
      }
    }
    forall j | j in Top(kept, n)
      ensures j in Top(all, n)
    {
      if x :| x in Above(all, j) && x !in kept {
        TopIsAbove(keys, n, x);
        assert Top(keys, n) <= Above(kept, j);
        Collections.SubsetIsSmaller(Top(keys, n), Above(kept, j));
      } else {
        assert Above(all, j) == Above(kept, j);
      }
    }
  }

  // ---------------------------------------------------------------------------------------------
  // Main results

  /** After any appends and overwrites the stored log is the `n` largest keys of the whole history, each with the
      payload last written for it. */
  lemma {:induction false} StoredIsTopOfHistory(appends: seq<Append>, n: nat)
    ensures Stored(appends, n) == Prune(History(appends), n)
  {
    if appends == [] {
      assert Prune(map[], n) == map[];
    } else {
      var before := appends[..|appends| - 1];
      var a := appends[|appends| - 1];
      var h := History(before);
      StoredIsTopOfHistory(before, n);
      var stored := Prune(h, n);
      assert stored.Keys == Top(h.Keys, n);
      TopAfterInsert(h.Keys, a.key, n);
      assert stored[a.key := a.payload].Keys == Top(h.Keys, n) + {a.key};
      assert h[a.key := a.payload].Keys == h.Keys + {a.key};
      assert Prune(stored[a.key := a.payload], n).Keys == Top(Top(h.Keys, n) + {a.key}, n);
      assert Prune(h[a.key := a.payload], n).Keys == Top(h.Keys + {a.key}, n);
    }
  }

  /** So the log is bounded, and full as soon as there have been that many distinct keys. */
  lemma {:induction false} StoredSize(appends: seq<Append>, n: nat)
    ensures |Stored(appends, n)| == if |History(appends)| <= n then |History(appends)| else n
  {
    StoredIsTopOfHistory(appends, n);
    var h := History(appends);
    assert Prune(h, n).Keys == Top(h.Keys, n);
    TopSize(h.Keys, n);
    assert |Prune(h, n)| == |Prune(h, n).Keys| && |h| == |h.Keys|;
  }

  /** A smaller sequence, or the same one and a smaller index. */
  predicate IsEarlier(a: Key, b: Key) {
    if a.0 == b.0 then a.1 < b.1 else a.0 < b.0
  }

  /** What is stored is the most recent part of the history: each update as it was last written, and everything that is
      not stored any more is earlier than everything that is. */
  lemma {:induction false} StoredIsMostRecent(appends: seq<Append>, n: nat)
    ensures var stored, history := Stored(appends, n), History(appends);
            && (forall k :: k in stored ==> k in history && stored[k] == history[k])
            && (forall j, k :: j in history && j !in stored && k in stored ==> IsEarlier(j, k))
  {
    StoredIsTopOfHistory(appends, n);
    var keys := History(appends).Keys;
    forall j, k | j in keys && j !in Top(keys, n) && k in Top(keys, n)
      ensures IsEarlier(j, k)
    {
      TopIsAbove(keys, n, j);
    }
  }

  /** The catalog keeps the 2000 most recent updates of a session, or all. */
  lemma {:induction false} KeepsTwoThousand(appends: seq<Append>)
    ensures |Stored(appends, MAX_UPDATES)| == if |History(appends)| <= 2000 then |History(appends)| else 2000
  {
    StoredSize(appends, MAX_UPDATES);
  }

  /** `COALESCE(MAX(sequence), 0)` */
  ghost predicate IsMaxSequence(log: Log, m: int) {
    if log == map[] then m == 0
    else (exists k :: k in log && k.0 == m) && forall k :: k in log ==> k.0 <= m
  }

  /** The next sequence exceeds every sequence ever appended, pruned or not. */
  lemma {:induction false} NextSequenceIsNew(appends: seq<Append>, n: nat, m: int)
    requires n >= 1 && IsMaxSequence(Stored(appends, n), m)
    ensures forall k :: k in History(appends) ==> k.0 < m + 1
  {
    StoredIsTopOfHistory(appends, n);
    var h := History(appends);
    if h != map[] {
      assert h.Keys != {};
      var top := Highest(h.Keys);
      assert Above(h.Keys, top) == {};
      assert top in Prune(h, n);
    }
  }

  // ---------------------------------------------------------------------------------------------
  // Replaying

  /** `ORDER BY sequence, update_index`: all keys, ascending. */
  ghost predicate Lists(keys: seq<Key>, log: Log) {
    && (forall k :: k in keys <==> k in log)
    && forall i, j :: 0 <= i < j < |keys| ==> IsEarlier(keys[i], keys[j])
  }

  ghost predicate Carries(payloads: seq<Payload>, keys: seq<Key>, log: Log) {
    && |payloads| == |keys|
    && forall i :: 0 <= i < |keys| ==> keys[i] in log && payloads[i] == log[keys[i]]
  }

  ghost predicate IsReplay(payloads: seq<Payload>, log: Log) {
    exists keys :: Lists(keys, log) && Carries(payloads, keys, log)
  }

  lemma EmptyReplay(payloads: seq<Payload>)
    requires IsReplay(payloads, map[])
    ensures payloads == []
  {
    var keys :| Lists(keys, map[]) && Carries(payloads, keys, map[]);
    OneListing(keys, [], map[]);
  }

  lemma OneListing(a: seq<Key>, b: seq<Key>, log: Log)
    requires Lists(a, log) && Lists(b, log)
    ensures a == b
  {
    assert forall k :: k in a <==> k in log;
    assert forall k :: k in b <==> k in log;
    AscendingSame(a, b);
  }

  lemma OneReplay(p: seq<Payload>, q: seq<Payload>, keys: seq<Key>, log: Log)
    requires Carries(p, keys, log) && Carries(q, keys, log)
    ensures p == q
  {
  }

  /** A log has only one replay. */
  lemma {:induction false} ReplayIsUnique(p: seq<Payload>, q: seq<Payload>, log: Log)
    requires IsReplay(p, log) && IsReplay(q, log)
    ensures p == q
  {
    var a :| Lists(a, log) && Carries(p, a, log);
    var b :| Lists(b, log) && Carries(q, b, log);
    OneListing(a, b, log);
    OneReplay(p, q, a, log);
  }

  lemma {:induction false} AscendingSame(a: seq<Key>, b: seq<Key>)
    requires forall k :: k in a <==> k in b
    requires forall i, j :: 0 <= i < j < |a| ==> Less(a[i], a[j])
    requires forall i, j :: 0 <= i < j < |b| ==> Less(b[i], b[j])
    ensures a == b
  {
    if a == [] {
      assert forall i :: 0 <= i < |b| ==> b[i] in b;
    } else {
      var m, n := |a| - 1, |b| - 1;
      assert a[m] in a && a[m] in b;
      var i :| 0 <= i < |b| && b[i] == a[m];
      assert b[n] in b && b[n] in a;
      var j :| 0 <= j < |a| && a[j] == b[n];
      assert a[m] == b[n];
      forall k
        ensures k in a[..m] <==> k in b[..n]
      {
        if k in a[..m] { FrontIs(a, k); FrontIs(b, k); }
        if k in b[..n] { FrontIs(a, k); FrontIs(b, k); }
      }
      AscendingSame(a[..m], b[..n]);
    }
  }

  lemma FrontIs(a: seq<Key>, k: Key)
    requires a != [] && forall i, j :: 0 <= i < j < |a| ==> Less(a[i], a[j])
    ensures k in a[..|a| - 1] <==> k in a && k != a[|a| - 1]
  {
    if k in a && k != a[|a| - 1] {
      var i :| 0 <= i < |a| && a[i] == k;
      assert a[..|a| - 1][i] == k;
    }
  }
}
