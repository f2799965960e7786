/** What the path search behind `@` completion is about (src/synapse/commands/slash_complete.py:610-773): finite
    directory trees, the candidates they hold, and the queue of a breadth-first search. */
module PathTree {
  import opened Wrappers
  import Collections

  /** A directory entry as `os.scandir` shows it; symbolic links count as files, and `Broken` is an entry
      whose type cannot be read. */
  datatype Entry =
    | File(name: string)
    | Broken(name: string)
    | Dir(name: string, readable: bool, children: seq<Entry>)

  const SKIP_DIRS: set<string> := {".git", ".hg", ".svn", "__pycache__", ".venv", "venv", ".tox", "node_modules",
                                   ".mypy_cache", ".pytest_cache", ".ruff_cache", ".hypothesis", ".eggs", "build",
                                   "dist", ".idea", ".vscode"}

  predicate IsSkipped(name: string) {
    name in SKIP_DIRS
  }

  predicate IsHidden(name: string) {
    name != [] && name[0] == '.'
  }

  function Lower(s: string): (r: string)
    ensures |r| == |s| && forall i :: 0 <= i < |r| ==> !('A' <= r[i] <= 'Z')
  {
    seq(|s|, i requires 0 <= i < |s| => if 'A' <= s[i] <= 'Z' then (s[i] as int + 32) as char else s[i])
  }

  /** `name.lower().startswith(base.lower())` */
  predicate Matches(name: string, base: string) {
    Lower(base) <= Lower(name)
  }

  /** The same character, or the same letter of the other case. */
  predicate SameLetter(a: char, b: char) {
    a == b || ('A' <= a <= 'Z' && b as int == a as int + 32) || ('A' <= b <= 'Z' && a as int == b as int + 32)
  }

  /** The name begins with the base, ignoring the case of letters. */
  lemma {:induction false} MatchesIff(name: string, base: string)
    ensures Matches(name, base) <==>
            |base| <= |name| && forall i :: 0 <= i < |base| ==> SameLetter(base[i], name[i])
  {
    var b, n := Lower(base), Lower(name);
    if |base| <= |name| {
      forall i | 0 <= i < |base|
        ensures b[i] == n[i] <==> SameLetter(base[i], name[i])
      {
      }
      assert b <= n <==> forall i :: 0 <= i < |b| ==> b[i] == n[i];
    }
  }

  function Slashes(s: string): (r: string)
    ensures |r| == |s|
  {
    seq(|s|, i requires 0 <= i < |s| => if s[i] == '\\' then '/' else s[i])
  }

  function Rel(prefix: string, name: string): string {
    Slashes(if prefix == [] then name else prefix + "/" + name)
  }

  // ---------------------------------------------------------------------------------------------
  // What there is to find

  /** The candidate an entry of a directory gives, if any. */
  function Key(e: Entry, prefix: string, base: string): Option<string> {
    if IsHidden(e.name) || e.Broken? || (e.Dir? && IsSkipped(e.name)) || !Matches(e.name, base) then None
    else Some(Found(e, prefix))
  }

  function Found(e: Entry, prefix: string): string {
    Rel(prefix, e.name) + if e.Dir? then "/" else []
  }

  function AsSet(o: Option<string>): set<string> {
    if o.Some? then {o.value} else {}
  }

  /** The search goes down into this entry. */
  predicate Descends(e: Entry) {
    e.Dir? && !IsHidden(e.name) && !IsSkipped(e.name)
  }

  /** Every matching entry below a directory that is reachable without crossing a hidden or skipped one. */
  function Reachable(entries: seq<Entry>, prefix: string, base: string): set<string> {
    if entries == [] then {}
    else ReachableFrom(entries[0], prefix, base) + Reachable(entries[1..], prefix, base)
  }

  function ReachableFrom(e: Entry, prefix: string, base: string): set<string>
    decreases e, 1
  {
    AsSet(Key(e, prefix, base)) + Below(e, prefix, base)
  }

  function Below(e: Entry, prefix: string, base: string): set<string>
    decreases e, 0
  {
    if Descends(e) && e.readable then Reachable(e.children, Rel(prefix, e.name), base) else {}
  }

  /** How many entries a complete search looks at. */
  function ScanSize(entries: seq<Entry>): nat {
    if entries == [] then 0 else 1 + ScanBelow(entries[0]) + ScanSize(entries[1..])
  }

  function ScanBelow(e: Entry): nat {
    if Descends(e) && e.readable then ScanSize(e.children) else 0
  }

  /** Entry `e` lies in the tree, in the directory with path `at`, and no directory on the way there is hidden,
      skipped or unreadable. */
  ghost predicate Reached(entries: seq<Entry>, prefix: string, e: Entry, at: string) {
    entries != [] &&
    (|| (e == entries[0] && at == prefix)
     || ReachedBelow(entries[0], prefix, e, at)
     || Reached(entries[1..], prefix, e, at))
  }

  ghost predicate ReachedBelow(d: Entry, prefix: string, e: Entry, at: string)
    decreases d, 0
  {
    Descends(d) && d.readable && Reached(d.children, Rel(prefix, d.name), e, at)
  }

  /** The entry is one to report, its own name starts with the base ignoring case, and `c` is its path. */
  ghost predicate Reports(e: Entry, at: string, base: string, c: string) {
    && !IsHidden(e.name) && !e.Broken? && !(e.Dir? && IsSkipped(e.name))
    && Matches(e.name, base) && c == Found(e, at)
  }

  ghost predicate IsFallbackMatch(entries: seq<Entry>, prefix: string, base: string, c: string) {
    exists e, at :: Reached(entries, prefix, e, at) && Reports(e, at, base, c)
  }

  /** What there is to find is exactly the paths of the matching entries reached. */
  lemma {:induction false} ReachableIff(entries: seq<Entry>, prefix: string, base: string, c: string)
    ensures c in Reachable(entries, prefix, base) <==> IsFallbackMatch(entries, prefix, base, c)
  {
    if c in Reachable(entries, prefix, base) { ReachableMatch(entries, prefix, base, c); }
    forall e, at | Reached(entries, prefix, e, at) && Reports(e, at, base, c)
      ensures c in Reachable(entries, prefix, base)
    {
      MatchReachable(entries, prefix, base, c, e, at);
    }
  }

  lemma {:induction false} ReachableMatch(entries: seq<Entry>, prefix: string, base: string, c: string)
    requires c in Reachable(entries, prefix, base)
    ensures IsFallbackMatch(entries, prefix, base, c)
  {
    var d := entries[0];
    if c in Reachable(entries[1..], prefix, base) {
      ReachableMatch(entries[1..], prefix, base, c);
      var e, at :| Reached(entries[1..], prefix, e, at) && Reports(e, at, base, c);
      assert Reached(entries, prefix, e, at);
    } else if c in AsSet(Key(d, prefix, base)) {
      assert Reached(entries, prefix, d, prefix) && Reports(d, prefix, base, c);
    } else {
      assert c in Below(d, prefix, base);
      ReachableMatch(d.children, Rel(prefix, d.name), base, c);
      var e, at :| Reached(d.children, Rel(prefix, d.name), e, at) && Reports(e, at, base, c);
      assert ReachedBelow(d, prefix, e, at);
      assert Reached(entries, prefix, e, at);
    }
  }

  lemma {:induction false} MatchReachable(entries: seq<Entry>, prefix: string, base: string, c: string, e: Entry,
                                          at: string)
    requires Reached(entries, prefix, e, at) && Reports(e, at, base, c)
    ensures c in Reachable(entries, prefix, base)
  {
    var d := entries[0];
    if e == d && at == prefix {
      assert Key(e, prefix, base) == Some(c);
    } else if ReachedBelow(d, prefix, e, at) {
      MatchReachable(d.children, Rel(prefix, d.name), base, c, e, at);
      assert c in Below(d, prefix, base);
    } else {
      MatchReachable(entries[1..], prefix, base, c, e, at);
    }
  }

  // Paths as lists of names

  /** Entry `e` is found by following the names down the tree, through nothing hidden, skipped or unreadable. */
  ghost predicate Leads(entries: seq<Entry>, names: seq<string>, e: Entry)
    decreases |names|
  {
    names != [] &&
    exists d :: d in entries && d.name == names[0] &&
      if |names| == 1 then d == e else Descends(d) && d.readable && Leads(d.children, names[1..], e)
  }

  function Joined(names: seq<string>): string {
    if names == [] then [] else if |names| == 1 then names[0] else names[0] + "/" + Joined(names[1..])
  }

  /** The path with the prefix in front and every backslash turned round. */
  ghost predicate IsPathOf(c: string, prefix: string, names: seq<string>) {
    var written := (if prefix == [] then [] else prefix + "/") + Joined(names);
    |c| == |written| && forall i :: 0 <= i < |c| ==> c[i] == if written[i] == '\\' then '/' else written[i]
  }

  /** No entry of the tree has an empty name. */
  ghost predicate Named(entries: seq<Entry>) {
    forall e :: e in entries ==> e.name != [] && (e.Dir? ==> Named(e.children))
  }

  /** The path of a reached entry is the names on the way to it joined by slashes. */
  lemma {:induction false} PathIsNames(entries: seq<Entry>, prefix: string, e: Entry, at: string)
    returns (names: seq<string>)
    requires Reached(entries, prefix, e, at)
    requires Named(entries)
    ensures Leads(entries, names, e) && names[|names| - 1] == e.name && IsPathOf(Rel(at, e.name), prefix, names)
  {
    var d := entries[0];
    if e == d && at == prefix {
      names := [e.name];
    } else if ReachedBelow(d, prefix, e, at) {
      var rest := PathIsNames(d.children, Rel(prefix, d.name), e, at);
      names := [d.name] + rest;
      assert names[0] == d.name && names[1..] == rest;
      OneNameMore(Rel(at, e.name), prefix, d.name, rest);
    } else {
      names := PathIsNames(entries[1..], prefix, e, at);
      LeadsInLonger(entries, names, e);
    }
  }

  /** Conversely whatever the names lead to is reached, at that path. */
  lemma {:induction false} NamesReach(entries: seq<Entry>, prefix: string, e: Entry, names: seq<string>)
    returns (at: string)
    requires Named(entries) && Leads(entries, names, e)
    ensures Reached(entries, prefix, e, at) && names[|names| - 1] == e.name
    ensures IsPathOf(Rel(at, e.name), prefix, names)
    decreases |names|, |entries|
  {
    var d := entries[0];
    if |names| == 1 && d == e {
      at := prefix;
    } else if |names| > 1 && d.name == names[0] && Descends(d) && d.readable && Leads(d.children, names[1..], e) {
      at := NamesReach(d.children, Rel(prefix, d.name), e, names[1..]);
      OneNameMore(Rel(at, e.name), prefix, d.name, names[1..]);
      assert names == [d.name] + names[1..];
      assert ReachedBelow(d, prefix, e, at);
    } else {
      at := NamesReach(entries[1..], prefix, e, names);
    }
  }

  /** The entry is one to report. */
  predicate IsReported(e: Entry, base: string) {
    !e.Broken? && (e.name != [] ==> e.name[0] != '.') && !(e.Dir? && IsSkipped(e.name)) &&
    Lower(base) <= Lower(e.name)
  }

  /** The candidate is the path made of the names that lead to an entry to report; directories end in a slash. */
  ghost predicate IsNamedMatch(entries: seq<Entry>, prefix: string, base: string, c: string) {
    exists names, e :: IsNamed(entries, prefix, base, c, names, e)
  }

  ghost predicate IsNamed(entries: seq<Entry>, prefix: string, base: string, c: string, names: seq<string>, e: Entry) {
    Leads(entries, names, e) && HasPath(prefix, base, c, names, e)
  }

  /** The entry is one to report and `c` the path of its names; directories end in a slash. */
  ghost predicate HasPath(prefix: string, base: string, c: string, names: seq<string>, e: Entry) {
    && IsReported(e, base)
    && if e.Dir? then c != [] && c[|c| - 1] == '/' && IsPathOf(c[..|c| - 1], prefix, names)
       else IsPathOf(c, prefix, names)
  }

  /** No directory on the way has one of these names or a dot in front. */
  lemma {:induction false} NeverThrough(entries: seq<Entry>, names: seq<string>, e: Entry, i: nat)
    requires Leads(entries, names, e) && i < |names| - 1
    ensures names[i] !in {".git", ".hg", ".svn", "__pycache__", ".venv", "venv", ".tox", "node_modules", ".mypy_cache",
                          ".pytest_cache", ".ruff_cache", ".hypothesis", ".eggs", "build", "dist", ".idea", ".vscode"}
    ensures names[i] != [] ==> names[i][0] != '.'
    decreases |names|
  {
    var d :| d in entries && d.name == names[0] && Descends(d) && d.readable && Leads(d.children, names[1..], e);
    if i > 0 {
      NeverThrough(d.children, names[1..], e, i - 1);
      assert names[1..][i - 1] == names[i];
    }
  }

  /** What the fallback can find, in terms of names only. */
  lemma {:induction false} FallbackFindsIff(entries: seq<Entry>, prefix: string, base: string, c: string)
    requires Named(entries)
    ensures c in Reachable(entries, prefix, base) <==> IsNamedMatch(entries, prefix, base, c)
  {
    ReachableIff(entries, prefix, base, c);
    if IsFallbackMatch(entries, prefix, base, c) {
      var e, at :| Reached(entries, prefix, e, at) && Reports(e, at, base, c);
      var names := PathIsNames(entries, prefix, e, at);
      ReportsIff(prefix, base, c, names, e, at);
      assert IsNamed(entries, prefix, base, c, names, e);
    }
    if IsNamedMatch(entries, prefix, base, c) {
      var names, e :| IsNamed(entries, prefix, base, c, names, e);
      var at := NamesReach(entries, prefix, e, names);
      ReportsIff(prefix, base, c, names, e, at);
    }
  }

  lemma ReportsIff(prefix: string, base: string, c: string, names: seq<string>, e: Entry, at: string)
    requires IsPathOf(Rel(at, e.name), prefix, names)
    ensures Reports(e, at, base, c) <==> HasPath(prefix, base, c, names, e)
  {
    var path := Rel(at, e.name);
    if e.Dir? {
      assert (path + "/")[..|path|] == path;
      if HasPath(prefix, base, c, names, e) { assert c[..|c| - 1] == path && c == c[..|c| - 1] + "/"; }
    } else {
      assert path + [] == path;
      if HasPath(prefix, base, c, names, e) { assert c == path; }
    }
  }

  lemma LeadsInLonger(entries: seq<Entry>, names: seq<string>, e: Entry)
    requires entries != [] && Leads(entries[1..], names, e)
    ensures Leads(entries, names, e)
  {
    var d :| d in entries[1..] && d.name == names[0] &&
      if |names| == 1 then d == e else Descends(d) && d.readable && Leads(d.children, names[1..], e);
    assert d in entries;
  }

  lemma OneNameMore(c: string, prefix: string, name: string, rest: seq<string>)
    requires rest != [] && name != [] && IsPathOf(c, Rel(prefix, name), rest)
    ensures IsPathOf(c, prefix, [name] + rest)
  {
    assert ([name] + rest)[1..] == rest;
    var front := if prefix == [] then name else prefix + "/" + name;
    var inner, outer := Rel(prefix, name) + "/" + Joined(rest), front + "/" + Joined(rest);
    assert outer == (if prefix == [] then [] else prefix + "/") + Joined([name] + rest);
    assert forall i :: 0 <= i < |front| ==> inner[i] == Slashes(front)[i];
    assert forall i :: |front| <= i < |inner| ==> inner[i] == outer[i];
  }

  // ---------------------------------------------------------------------------------------------
  // The queue

  datatype Item = Item(readable: bool, entries: seq<Entry>, prefix: string)

  /** The directories among the first `n` entries that are queued. */
  function Queued(entries: seq<Entry>, n: nat, prefix: string): seq<Item>
    requires n <= |entries|
  {
    if n == 0 then []
    else
      var e := entries[n - 1];
      Queued(entries, n - 1, prefix) +
      if Descends(e) then [Item(e.readable, e.children, Rel(prefix, e.name))] else []
  }

  function ItemReachable(item: Item, base: string): set<string> {
    if item.readable then Reachable(item.entries, item.prefix, base) else {}
  }

  function QueueReachable(q: seq<Item>, base: string): set<string> {
    if q == [] then {} else QueueReachable(q[..|q| - 1], base) + ItemReachable(q[|q| - 1], base)
  }

  function ItemScan(item: Item): nat {
    if item.readable then ScanSize(item.entries) else 0
  }

  function QueueScan(q: seq<Item>): nat {
    if q == [] then 0 else QueueScan(q[..|q| - 1]) + ItemScan(q[|q| - 1])
  }

  /** The candidates the first `n` entries give by themselves. */
  function Shallow(entries: seq<Entry>, n: nat, prefix: string, base: string): set<string>
    requires n <= |entries|
  {
    if n == 0 then {} else Shallow(entries, n - 1, prefix, base) + AsSet(Key(entries[n - 1], prefix, base))
  }

  lemma {:induction false} QueueReachableConcat(a: seq<Item>, b: seq<Item>, base: string)
    ensures QueueReachable(a + b, base) == QueueReachable(a, base) + QueueReachable(b, base)
    ensures QueueScan(a + b) == QueueScan(a) + QueueScan(b)
  {
    if b == [] {
      assert a + b == a;
    } else {
      assert (a + b)[..|a + b| - 1] == a + b[..|b| - 1];
      QueueReachableConcat(a, b[..|b| - 1], base);
    }
  }

  lemma {:induction false} QueueHead(q: seq<Item>, base: string)
    requires q != []
    ensures QueueReachable(q, base) == ItemReachable(q[0], base) + QueueReachable(q[1..], base)
    ensures QueueScan(q) == ItemScan(q[0]) + QueueScan(q[1..])
  {
    assert q == [q[0]] + q[1..];
    QueueReachableConcat([q[0]], q[1..], base);
    assert [q[0]][..0] == [];
  }

  lemma QueuedStep(entries: seq<Entry>, n: nat, prefix: string, base: string)
    requires n < |entries|
    ensures QueueReachable(Queued(entries, n + 1, prefix), base) ==
            QueueReachable(Queued(entries, n, prefix), base) + Below(entries[n], prefix, base)
    ensures QueueScan(Queued(entries, n + 1, prefix)) == QueueScan(Queued(entries, n, prefix)) + ScanBelow(entries[n])
  {
    var e, q := entries[n], Queued(entries, n, prefix);
    if Descends(e) {
      var item := Item(e.readable, e.children, Rel(prefix, e.name));
      assert Queued(entries, n + 1, prefix) == q + [item];
      assert (q + [item])[..|q|] == q;
    } else {
      assert Queued(entries, n + 1, prefix) == q + [] == q;
    }
  }

  lemma Regroup(s: set<string>, k: set<string>, q: set<string>, b: set<string>, r: set<string>)
    ensures s + q + ((k + b) + r) == (s + k) + (q + b) + r
  {}

  lemma {:induction false} ReachableSplit(entries: seq<Entry>, n: nat, prefix: string, base: string)
    requires n <= |entries|
    ensures Reachable(entries, prefix, base) ==
            Shallow(entries, n, prefix, base) + QueueReachable(Queued(entries, n, prefix), base) +
            Reachable(entries[n..], prefix, base)
  {
    if n == 0 {
      assert entries[0..] == entries;
    } else {
      ReachableSplit(entries, n - 1, prefix, base);
      QueuedStep(entries, n - 1, prefix, base);
      var e := entries[n - 1];
      assert entries[n - 1..][1..] == entries[n..];
      assert Reachable(entries[n - 1..], prefix, base) ==
             ReachableFrom(e, prefix, base) + Reachable(entries[n..], prefix, base);
      Regroup(Shallow(entries, n - 1, prefix, base), AsSet(Key(e, prefix, base)),
              QueueReachable(Queued(entries, n - 1, prefix), base), Below(e, prefix, base),
              Reachable(entries[n..], prefix, base));
    }
  }

  lemma {:induction false} ScanSplit(entries: seq<Entry>, n: nat, prefix: string, base: string)
    requires n <= |entries|
    ensures ScanSize(entries) == n + QueueScan(Queued(entries, n, prefix)) + ScanSize(entries[n..])
  {
    if n == 0 {
      assert entries[0..] == entries;
    } else {
      ScanSplit(entries, n - 1, prefix, base);
      QueuedStep(entries, n - 1, prefix, base);
      ScanStep(entries, n - 1);
    }
  }

  lemma ScanStep(entries: seq<Entry>, n: nat)
    requires n < |entries|
    ensures ScanSize(entries[n..]) == 1 + ScanBelow(entries[n]) + ScanSize(entries[n + 1..])
  {
    Collections.OneFurther(entries, n);
  }

  /** A directory's findings: its own entries, and what is below the directories it queues. */
  lemma {:induction false} ReachableOfDir(entries: seq<Entry>, prefix: string, base: string)
    ensures Reachable(entries, prefix, base) ==
            Shallow(entries, |entries|, prefix, base) + QueueReachable(Queued(entries, |entries|, prefix), base)
    ensures ScanSize(entries) == |entries| + QueueScan(Queued(entries, |entries|, prefix))
  {
    ReachableSplit(entries, |entries|, prefix, base);
    ScanSplit(entries, |entries|, prefix, base);
  }

  // Termination: every pop removes a directory and queues only directories inside it.

  function Nodes(entries: seq<Entry>): nat {
    if entries == [] then 0 else NodesOf(entries[0]) + Nodes(entries[1..])
  }

  function NodesOf(e: Entry): nat {
    if e.Dir? then 1 + Nodes(e.children) else 1
  }

  function Weight(q: seq<Item>): nat {
    if q == [] then 0 else Weight(q[..|q| - 1]) + 1 + Nodes(q[|q| - 1].entries)
  }

  lemma {:induction false} WeightConcat(a: seq<Item>, b: seq<Item>)
    ensures Weight(a + b) == Weight(a) + Weight(b)
  {
    if b == [] {
      assert a + b == a;
    } else {
      assert (a + b)[..|a + b| - 1] == a + b[..|b| - 1];
      WeightConcat(a, b[..|b| - 1]);
    }
  }

  lemma {:induction false} QueuedWeight(entries: seq<Entry>, n: nat, prefix: string)
    requires n <= |entries|
    ensures Weight(Queued(entries, n, prefix)) + Nodes(entries[n..]) <= Nodes(entries)
  {
    if n == 0 {
      assert entries[0..] == entries;
    } else {
      QueuedWeight(entries, n - 1, prefix);
      var e, q := entries[n - 1], Queued(entries, n - 1, prefix);
      assert entries[n - 1..][0] == e && entries[n - 1..][1..] == entries[n..];
      if Descends(e) {
        var item := Item(e.readable, e.children, Rel(prefix, e.name));
        WeightOne(item);
        WeightConcat(q, [item]);
      } else {
        assert q + [] == q;
      }
    }
  }

  lemma WeightOne(item: Item)
    ensures Weight([item]) == 1 + Nodes(item.entries)
  {
    assert [item][..0] == [];
  }

  lemma {:induction false} PopWeighsLess(q: seq<Item>, n: nat)
    requires q != [] && n <= |q[0].entries|
    ensures Weight(q[1..] + Queued(q[0].entries, n, q[0].prefix)) < Weight(q)
  {
    assert q == [q[0]] + q[1..];
    WeightConcat([q[0]], q[1..]);
    WeightOne(q[0]);
    WeightConcat(q[1..], Queued(q[0].entries, n, q[0].prefix));
    QueuedWeight(q[0].entries, n, q[0].prefix);
  }
}
