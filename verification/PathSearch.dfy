/** The bounded path search behind `@` completion (`_glob_at_candidates` and the cycling on top of it,
    src/synapse/commands/slash_complete.py:610-827), on finite directory trees. */
module PathSearch {
  import opened Wrappers
  import Collections
  import Ordering
  import opened PathLevels
  import opened PathTree

  const SCAN_LIMIT: nat := 2000
  const LISTING_LIMIT: nat := 500

  // ---------------------------------------------------------------------------------------------
  // The search

  ghost predicate Distinct(s: seq<string>) {
    forall i, j :: 0 <= i < j < |s| ==> s[i] != s[j]
  }

  function Elements(s: seq<string>): set<string> {
    if s == [] then {} else Elements(s[..|s| - 1]) + {s[|s| - 1]}
  }

  /** The candidate list together with the set that keeps it free of duplicates. */
  ghost predicate Kept(candidates: seq<string>, seen: set<string>, limit: nat) {
    seen == Elements(candidates) && |seen| == |candidates| <= limit
  }

  lemma {:induction false} ElementsSize(s: seq<string>)
    ensures |Elements(s)| <= |s|
  {
    if s != [] { ElementsSize(s[..|s| - 1]); }
  }

  lemma {:induction false} ElementsAre(s: seq<string>)
    ensures forall c :: c in s <==> c in Elements(s)
  {
    if s != [] {
      ElementsAre(s[..|s| - 1]);
      assert s == s[..|s| - 1] + [s[|s| - 1]];
    }
  }

  /** As many elements as places: no two places hold the same candidate. */
  lemma {:induction false} KeptDistinct(s: seq<string>)
    requires |Elements(s)| == |s|
    ensures Distinct(s)
  {
    if s != [] {
      var init := s[..|s| - 1];
      ElementsSize(init);
      KeptDistinct(init);
      ElementsAre(init);
      assert s[|s| - 1] !in init;
      forall i, j | 0 <= i < j < |s|
        ensures s[i] != s[j]
      {
        assert s[i] == init[i];
        if j < |s| - 1 { assert s[j] == init[j]; }
      }
    }
  }

  lemma KeepOneMore(candidates: seq<string>, seen: set<string>, limit: nat, c: string)
    requires Kept(candidates, seen, limit) && c !in seen && |candidates| < limit
    ensures Kept(candidates + [c], seen + {c}, limit)
  {
    assert (candidates + [c])[..|candidates|] == candidates;
  }

  /** Appends a new candidate unless it was seen; `limit` is the cap that has not been reached yet. */
  method Offer(key: Option<string>, candidates0: seq<string>, seen0: set<string>, ghost limit: nat)
    returns (candidates: seq<string>, seen: set<string>)
    requires Kept(candidates0, seen0, limit) && |candidates0| < limit
    ensures Kept(candidates, seen, limit)
    ensures seen == seen0 + AsSet(key)
    ensures candidates == if key.Some? && key.value !in seen0 then candidates0 + [key.value] else candidates0
  {
    candidates, seen := candidates0, seen0;
    if key.Some? && key.value !in seen {
      KeepOneMore(candidates, seen, limit, key.value);
      seen := seen + {key.value};
      candidates := candidates + [key.value];
    }
  }

  lemma Associate(a: set<string>, b: set<string>, c: set<string>)
    ensures (a + b) + c == a + (b + c)
  {}

  lemma ShallowGrows(item: Item, n: nat, base: string, seen: set<string>, key: Option<string>)
    requires n < |item.entries| && key == Key(item.entries[n], item.prefix, base)
    ensures seen + Shallow(item.entries, n + 1, item.prefix, base) ==
            seen + Shallow(item.entries, n, item.prefix, base) + AsSet(key)
  {
    Associate(seen, Shallow(item.entries, n, item.prefix, base), AsSet(key));
  }

  /** One directory of the breadth-first scan; stops early at either cap. */
  method ScanDir(item: Item, base: string, limit: nat, candidates0: seq<string>, seen0: set<string>, scanned0: nat)
    returns (candidates: seq<string>, seen: set<string>, scanned: nat, done: nat)
    requires Kept(candidates0, seen0, limit) && |candidates0| < limit
    ensures Kept(candidates, seen, limit) && done <= |item.entries|
    ensures seen == seen0 + Shallow(item.entries, done, item.prefix, base)
    ensures scanned0 + done <= scanned <= scanned0 + |item.entries| && (scanned <= 2000 ==> scanned == scanned0 + done)
    ensures done > 0 ==> scanned0 + done <= 2000
    ensures scanned <= 2000 && |candidates| < limit ==> done == |item.entries|
  {
    candidates, seen, scanned, done := candidates0, seen0, scanned0, 0;
    while done < |item.entries| && |candidates| < limit
      invariant done <= |item.entries| && Kept(candidates, seen, limit)
      invariant seen == seen0 + Shallow(item.entries, done, item.prefix, base)
      invariant scanned == scanned0 + done && (done > 0 ==> scanned <= SCAN_LIMIT)
      decreases |item.entries| - done
    {
      scanned := scanned + 1;
      if scanned > SCAN_LIMIT { break; }
      var key := Key(item.entries[done], item.prefix, base);
      ShallowGrows(item, done, base, seen0, key);
      candidates, seen := Offer(key, candidates, seen, limit);
      done := done + 1;
    }
  }

  /** What one directory adds and what it leaves in the queue is together what it and the queue had to offer. */
  lemma PopReaches(queue: seq<Item>, done: nat, base: string)
    requires queue != [] && queue[0].readable && done <= |queue[0].entries|
    ensures var rest := queue[1..] + Queued(queue[0].entries, done, queue[0].prefix);
            var found := Shallow(queue[0].entries, done, queue[0].prefix, base);
            && found + QueueReachable(rest, base) <= QueueReachable(queue, base)
            && (done == |queue[0].entries| ==>
                  && found + QueueReachable(rest, base) == QueueReachable(queue, base)
                  && done + QueueScan(rest) == QueueScan(queue))
  {
    var item := queue[0];
    QueueHead(queue, base);
    QueueReachableConcat(queue[1..], Queued(item.entries, done, item.prefix), base);
    ReachableSplit(item.entries, done, item.prefix, base);
    if done == |item.entries| { ReachableOfDir(item.entries, item.prefix, base); }
  }

  /** One turn of the loop: takes the first directory off the queue, scans it and queues what it holds. */
  method ScanNext(queue0: seq<Item>, base: string, limit: nat, candidates0: seq<string>, seen0: set<string>,
                  scanned0: nat)
    returns (queue: seq<Item>, candidates: seq<string>, seen: set<string>, scanned: nat, ghost looked: nat)
    requires queue0 != [] && Kept(candidates0, seen0, limit) && |candidates0| < limit
    ensures Kept(candidates, seen, limit) && Weight(queue) < Weight(queue0)
    ensures scanned0 + looked <= scanned && (looked > 0 ==> scanned0 + looked <= 2000)
    ensures looked <= |queue0[0].entries| && seen == seen0 + Gives(queue0[0], looked, base)
    ensures queue == queue0[1..] + Leaves(queue0[0], looked)
    ensures scanned <= 2000 && |candidates| < limit && queue0[0].readable ==> looked == |queue0[0].entries|
    ensures seen0 <= seen && seen + QueueReachable(queue, base) <= seen0 + QueueReachable(queue0, base)
    ensures scanned0 + QueueScan(queue0) <= 2000 && |candidates| < limit ==>
              && seen + QueueReachable(queue, base) == seen0 + QueueReachable(queue0, base)
              && scanned + QueueScan(queue) == scanned0 + QueueScan(queue0)
  {
    var item := queue0[0];
    QueueHead(queue0, base);
    if item.readable {
      var done;
      candidates, seen, scanned, done := ScanDir(item, base, limit, candidates0, seen0, scanned0);
      PopWeighsLess(queue0, done);
      PopReaches(queue0, done, base);
      ScanAtLeast(item.entries);
      queue, looked := queue0[1..] + Queued(item.entries, done, item.prefix), done;
    } else {
      PopWeighsLess(queue0, 0);
      queue, candidates, seen, scanned, looked := queue0[1..], candidates0, seen0, scanned0, 0;
      assert queue + Queued(item.entries, 0, item.prefix) == queue;
    }
  }

  lemma {:induction false} ScanAtLeast(entries: seq<Entry>)
    ensures ScanSize(entries) >= |entries|
  {
    if entries != [] { ScanAtLeast(entries[1..]); }
  }

  /** How far the search has come: what is found, what the queue still holds, and at which level it stands.  Past a cap
      nothing more is found. */
  ghost predicate OnCourse(queue: seq<Item>, scanned: nat, seen: set<string>, full: bool, m: nat, depth: nat,
                           root: Item, base: string, start: set<string>) {
    && start <= seen && seen + QueueReachable(queue, base) <= start + ItemReachable(root, base)
    && (ItemScan(root) <= 2000 && !full ==>
          seen + QueueReachable(queue, base) == start + ItemReachable(root, base) &&
          scanned + QueueScan(queue) == ItemScan(root))
    && FoundTo(seen, start, root, base, depth)
    && (scanned <= 2000 && !full ==> m <= |queue| && Levels(queue, m, seen, start, root, base, depth))
  }

  lemma SearchStarts(root: Item, base: string, start: set<string>)
    ensures OnCourse([root], 0, start, false, 1, 0, root, base, start)
  {
    LevelsAtStart(start, root, base);
    assert [root][..0] == [];
  }

  /** The levels after one turn. */
  lemma TurnLevels(queue0: seq<Item>, scanned0: nat, seen0: set<string>, m0: nat, depth0: nat, root: Item, base: string,
                   start: set<string>, queue: seq<Item>, scanned: nat, seen: set<string>, full: bool, looked: nat)
    returns (m: nat, depth: nat)
    requires queue0 != [] && OnCourse(queue0, scanned0, seen0, false, m0, depth0, root, base, start)
    requires looked <= |queue0[0].entries| && (looked > 0 ==> scanned0 <= 2000) && scanned0 <= scanned
    requires queue == queue0[1..] + Leaves(queue0[0], looked) && seen == seen0 + Gives(queue0[0], looked, base)
    requires scanned <= 2000 && !full && queue0[0].readable ==> looked == |queue0[0].entries|
    ensures FoundTo(seen, start, root, base, depth)
    ensures scanned <= 2000 && !full ==> m <= |queue| && Levels(queue, m, seen, start, root, base, depth)
  {
    m, depth := m0, depth0;
    if scanned0 > 2000 {
      assert Gives(queue0[0], looked, base) == {} && seen == seen0;
    } else {
      m, depth := LevelStep(queue0, m0, seen0, start, root, base, depth0, looked, queue, seen,
                            scanned <= 2000 && !full);
    }
  }

  /** The breadth-first fallback.  It terminates on every finite tree and looks at 2000 entries at most.  Whatever cap
      ends it, it has found all matches down to some depth, and besides only matches one level deeper. */
  method Search(root: Item, base: string, limit: nat, candidates0: seq<string>, seen0: set<string>)
    returns (candidates: seq<string>, seen: set<string>, ghost looked: nat, ghost depth: nat)
    requires Kept(candidates0, seen0, limit) && |candidates0| < limit
    ensures Kept(candidates, seen, limit) && looked <= 2000
    ensures FoundTo(seen, seen0, root, base, depth)
    ensures seen0 <= seen <= seen0 + ItemReachable(root, base)
    ensures ItemScan(root) <= 2000 && |seen0 + ItemReachable(root, base)| <= limit ==>
              seen == seen0 + ItemReachable(root, base)
  {
    candidates, seen, looked, depth := candidates0, seen0, 0, 0;
    var queue := [root];
    var scanned: nat := 0;
    ghost var m: nat := 1;
    SearchStarts(root, base, seen0);
    while queue != [] && |candidates| < limit
      invariant Kept(candidates, seen, limit) && looked <= 2000 && looked <= scanned
      invariant OnCourse(queue, scanned, seen, |candidates| >= limit, m, depth, root, base, seen0)
      decreases Weight(queue)
    {
      ghost var queue1, scanned1, seen1, more := queue, scanned, seen, 0;
      queue, candidates, seen, scanned, more := ScanNext(queue, base, limit, candidates, seen, scanned);
      looked := looked + more;
      m, depth := TurnLevels(queue1, scanned1, seen1, m, depth, root, base, seen0,
                             queue, scanned, seen, |candidates| >= limit, more);
    }
    if ItemScan(root) <= 2000 && |seen0 + ItemReachable(root, base)| <= limit && |candidates| >= limit {
      Collections.SubsetIsAll(seen, seen0 + ItemReachable(root, base));
    }
  }

  // ---------------------------------------------------------------------------------------------
  // Direct children

  function DropDot(rel: string): string {
    if "./" <= rel then rel[2..] else rel
  }

  /** `base` may be empty: then every visible entry matches. */
  function DirectKey(e: Entry, parent: string, base: string): Option<string> {
    if !Matches(e.name, base) then None
    else
      var suffix := if e.Dir? then e.name + "/" else e.name;
      Some(DropDot(Slashes(if parent == [] then suffix else parent + "/" + suffix)))
  }

  /** A direct candidate is the path of the child, with a slash if it is a directory and without a leading "./". */
  lemma {:induction false} DirectIsNamed(e: Entry, parent: string, base: string) returns (path: string)
    ensures IsPathOf(path, parent, [e.name])
    ensures DirectKey(e, parent, base).Some? <==> Lower(base) <= Lower(e.name)
    ensures DirectKey(e, parent, base).Some? ==>
              var full := if e.Dir? then path + "/" else path;
              full == (if "./" <= full then "./" else "") + DirectKey(e, parent, base).value
  {
    path := Slashes(if parent == [] then e.name else parent + "/" + e.name);
    assert Joined([e.name]) == e.name;
    WrittenIsPath(e, parent);
  }

  lemma WrittenIsPath(e: Entry, parent: string)
    ensures var suffix := if e.Dir? then e.name + "/" else e.name;
            var path := Slashes(if parent == [] then e.name else parent + "/" + e.name);
            var full := if e.Dir? then path + "/" else path;
            && Slashes(if parent == [] then suffix else parent + "/" + suffix) == full
            && full == (if "./" <= full then "./" else "") + DropDot(full)
  {
    var bare := if parent == [] then e.name else parent + "/" + e.name;
    var suffix := if e.Dir? then e.name + "/" else e.name;
    var written := if parent == [] then suffix else parent + "/" + suffix;
    assert written == if e.Dir? then bare + "/" else bare;
    var full := if e.Dir? then Slashes(bare) + "/" else Slashes(bare);
    assert Slashes(written) == full;
    if "./" <= full { assert full == full[..2] + full[2..]; }
  }

  function Direct(entries: seq<Entry>, n: nat, parent: string, base: string): set<string>
    requires n <= |entries|
  {
    if n == 0 then {} else Direct(entries, n - 1, parent, base) + AsSet(DirectKey(entries[n - 1], parent, base))
  }

  lemma SameElements<T>(a: seq<T>, b: seq<T>)
    requires multiset(a) == multiset(b)
    ensures forall x :: x in a <==> x in b
  {
    forall x
      ensures x in a <==> x in b
    {
      assert x in a <==> x in multiset(a);
      assert x in b <==> x in multiset(b);
    }
  }

  predicate HasBroken(entries: seq<Entry>) {
    exists e :: e in entries && e.Broken?
  }

  /** The visible entries, directories first, at most 500 of them; nothing if the listing fails. */
  function Shown(listing: seq<Entry>, readable: bool): seq<Entry> {
    var sorted := Sort(Visible(listing), EntryKey);
    if !readable || HasBroken(Visible(listing)) then []
    else if |sorted| > LISTING_LIMIT then sorted[..LISTING_LIMIT]
    else sorted
  }

  /** `_scandir_entries` */
  method ScandirEntries(listing: seq<Entry>, readable: bool) returns (shown: seq<Entry>)
    ensures shown == Shown(listing, readable)
  {
    if !readable { return []; }
    var entries: seq<Entry> := [];
    for i := 0 to |listing|
      invariant entries == Visible(listing[..i])
    {
      assert listing[..i + 1][..i] == listing[..i];
      if !IsHidden(listing[i].name) { entries := entries + [listing[i]]; }
    }
    assert listing[..|listing|] == listing;
    for i := 0 to |entries|
      invariant forall j :: 0 <= j < i ==> !entries[j].Broken?
    {
      if entries[i].Broken? { return []; }
    }
    entries := Sort(entries, EntryKey);
    if |entries| > LISTING_LIMIT { entries := entries[..LISTING_LIMIT]; }
    shown := entries;
  }

  /** What is shown is the first 500 of the visible entries in order; nothing is shown if the listing fails. */
  lemma {:induction false} ShownSpec(listing: seq<Entry>, readable: bool) returns (rest: seq<Entry>)
    ensures var shown := Shown(listing, readable);
            if !readable || exists e :: e in listing && e.Broken? && (e.name != [] ==> e.name[0] != '.')
            then shown == []
            else
              && EntriesInOrder(shown + rest) && multiset(shown + rest) == multiset(Visible(listing))
              && (forall e :: e in shown + rest <==> e in listing && (e.name != [] ==> e.name[0] != '.'))
              && |shown| <= 500 && (rest != [] ==> |shown| == 500)
  {
    VisibleSpec(listing);
    var visible, shown := Visible(listing), Shown(listing, readable);
    var sorted := Sort(visible, EntryKey);
    SortPermutes(visible, EntryKey);
    SortSorts(visible, EntryKey);
    SameElements(visible, sorted);
    SortedEntriesInOrder(sorted);
    rest := if |sorted| > LISTING_LIMIT then sorted[LISTING_LIMIT..] else [];
    if readable && !HasBroken(visible) { assert shown + rest == sorted; }
  }

  function Visible(listing: seq<Entry>): seq<Entry> {
    if listing == [] then []
    else
      var last := listing[|listing| - 1];
      Visible(listing[..|listing| - 1]) + if IsHidden(last.name) then [] else [last]
  }

  lemma {:induction false} VisibleSpec(listing: seq<Entry>)
    ensures forall e :: e in Visible(listing) <==> e in listing && !IsHidden(e.name)
  {
    if listing != [] { VisibleSpec(listing[..|listing| - 1]); }
  }

  // ---------------------------------------------------------------------------------------------
  // Sorting by a key of a flag and a text

  type SortKey = (bool, string)

  predicate KeyLess(a: SortKey, b: SortKey) {
    (!a.0 && b.0) || (a.0 == b.0 && Ordering.TextLess(a.1, b.1))
  }

  function EntryKey(e: Entry): SortKey {
    (!e.Dir?, Lower(e.name))
  }

  function PathKey(c: string): SortKey {
    (!(c != [] && c[|c| - 1] == '/'), Lower(c))
  }

  function Insert<T>(x: T, s: seq<T>, key: T -> SortKey): seq<T> {
    if s == [] then [x]
    else if KeyLess(key(s[|s| - 1]), key(x)) || !KeyLess(key(x), key(s[|s| - 1])) then s + [x]
    else Insert(x, s[..|s| - 1], key) + [s[|s| - 1]]
  }

  /** A stable sort. */
  function Sort<T>(s: seq<T>, key: T -> SortKey): seq<T> {
    if s == [] then [] else Insert(s[|s| - 1], Sort(s[..|s| - 1], key), key)
  }

  /** Folders come before files, and each of the two by name, ignoring case. */
  ghost predicate Precedes(folder: bool, name: string, folder1: bool, name1: string) {
    (folder1 ==> folder) && (folder == folder1 ==> !Ordering.ComesBefore(Lower(name1), Lower(name)))
  }

  ghost predicate EntriesInOrder(entries: seq<Entry>) {
    forall i, j :: 0 <= i < j < |entries| ==>
      Precedes(entries[i].Dir?, entries[i].name, entries[j].Dir?, entries[j].name)
  }

  /** A path that ends in a slash is a folder's. */
  predicate IsFolder(path: string) {
    path != [] && path[|path| - 1] == '/'
  }

  ghost predicate PathsInOrder(paths: seq<string>) {
    forall i, j :: 0 <= i < j < |paths| ==> Precedes(IsFolder(paths[i]), paths[i], IsFolder(paths[j]), paths[j])
  }

  lemma SortedPathsInOrder(paths: seq<string>)
    requires IsSorted(paths, PathKey)
    ensures PathsInOrder(paths)
  {
    forall i, j | 0 <= i < j < |paths|
      ensures Precedes(IsFolder(paths[i]), paths[i], IsFolder(paths[j]), paths[j])
    {
      assert !KeyLess(PathKey(paths[j]), PathKey(paths[i]));
      Ordering.TextLessIff(Lower(paths[j]), Lower(paths[i]));
    }
  }

  lemma SortedEntriesInOrder(entries: seq<Entry>)
    requires IsSorted(entries, EntryKey)
    ensures EntriesInOrder(entries)
  {
    forall i, j | 0 <= i < j < |entries|
      ensures Precedes(entries[i].Dir?, entries[i].name, entries[j].Dir?, entries[j].name)
    {
      assert !KeyLess(EntryKey(entries[j]), EntryKey(entries[i]));
      Ordering.TextLessIff(Lower(entries[j].name), Lower(entries[i].name));
    }
  }

  ghost predicate IsSorted<T>(s: seq<T>, key: T -> SortKey) {
    forall i, j :: 0 <= i < j < |s| ==> !KeyLess(key(s[j]), key(s[i]))
  }

  lemma {:induction false} InsertPermutes<T>(x: T, s: seq<T>, key: T -> SortKey)
    ensures multiset(Insert(x, s, key)) == multiset(s) + multiset{x} && |Insert(x, s, key)| == |s| + 1
  {
    if s != [] {
      assert s == s[..|s| - 1] + [s[|s| - 1]];
      InsertPermutes(x, s[..|s| - 1], key);
    }
  }

  lemma {:induction false} SortPermutes<T>(s: seq<T>, key: T -> SortKey)
    ensures multiset(Sort(s, key)) == multiset(s) && |Sort(s, key)| == |s|
  {
    if s != [] {
      assert s == s[..|s| - 1] + [s[|s| - 1]];
      SortPermutes(s[..|s| - 1], key);
      InsertPermutes(s[|s| - 1], Sort(s[..|s| - 1], key), key);
    }
  }

  lemma NotLessTransitive(a: SortKey, b: SortKey, c: SortKey)
    requires !KeyLess(b, a) && !KeyLess(c, b)
    ensures !KeyLess(c, a)
  {
    Ordering.TextTotal(a.1, b.1);
    Ordering.TextTotal(b.1, c.1);
    Ordering.TextIrreflexive(a.1);
    Ordering.TextIrreflexive(b.1);
    if Ordering.TextLess(a.1, b.1) && Ordering.TextLess(b.1, c.1) { Ordering.TextTransitive(a.1, b.1, c.1); }
    if Ordering.TextLess(c.1, a.1) {
      if Ordering.TextLess(a.1, b.1) { Ordering.TextTransitive(c.1, a.1, b.1); }
      if Ordering.TextLess(b.1, c.1) { Ordering.TextTransitive(b.1, c.1, a.1); }
    }
  }

  lemma {:induction false} InsertSorts<T>(x: T, s: seq<T>, key: T -> SortKey)
    requires IsSorted(s, key)
    ensures IsSorted(Insert(x, s, key), key)
  {
    if s != [] {
      var n := |s| - 1;
      var last := s[n];
      if KeyLess(key(last), key(x)) || !KeyLess(key(x), key(last)) {
        NotLessBack(key(last), key(x));
        forall i | 0 <= i < |s|
          ensures !KeyLess(key(x), key(s[i]))
        {
          if i < n { NotLessTransitive(key(s[i]), key(last), key(x)); }
        }
      } else {
        InsertSorts(x, s[..n], key);
        InsertPermutes(x, s[..n], key);
        var r := Insert(x, s[..n], key);
        NotLessBack(key(x), key(last));
        forall i | 0 <= i < |r|
          ensures !KeyLess(key(last), key(r[i]))
        {
          assert r[i] in multiset(r);
          if r[i] != x { assert r[i] in multiset(s[..n]); }
        }
      }
    }
  }

  lemma NotLessBack(a: SortKey, b: SortKey)
    ensures KeyLess(a, b) ==> !KeyLess(b, a)
  {
    if KeyLess(a, b) && KeyLess(b, a) {
      Ordering.TextTransitive(a.1, b.1, a.1);
      Ordering.TextIrreflexive(a.1);
    }
  }

  lemma {:induction false} SortSorts<T>(s: seq<T>, key: T -> SortKey)
    ensures IsSorted(Sort(s, key), key)
  {
    if s != [] {
      SortSorts(s[..|s| - 1], key);
      InsertSorts(s[|s| - 1], Sort(s[..|s| - 1], key), key);
    }
  }

  /** The elements with the given key, in their order. */
  function WithKey<T>(s: seq<T>, key: T -> SortKey, k: SortKey): seq<T> {
    if s == [] then []
    else WithKey(s[..|s| - 1], key, k) + if key(s[|s| - 1]) == k then [s[|s| - 1]] else []
  }

  lemma {:induction false} InsertStable<T>(x: T, s: seq<T>, key: T -> SortKey, k: SortKey)
    ensures WithKey(Insert(x, s, key), key, k) == WithKey(s, key, k) + if key(x) == k then [x] else []
  {
    if s != [] {
      var n := |s| - 1;
      if KeyLess(key(s[n]), key(x)) || !KeyLess(key(x), key(s[n])) {
        assert (s + [x])[..|s|] == s;
      } else {
        var r := Insert(x, s[..n], key);
        InsertStable(x, s[..n], key, k);
        assert (r + [s[n]])[..|r|] == r;
        Ordering.TextIrreflexive(key(x).1);
      }
    }
  }

  /** What has the same key keeps its order. */
  lemma {:induction false} SortStable<T>(s: seq<T>, key: T -> SortKey, k: SortKey)
    ensures WithKey(Sort(s, key), key, k) == WithKey(s, key, k)
  {
    if s != [] {
      SortStable(s[..|s| - 1], key, k);
      InsertStable(s[|s| - 1], Sort(s[..|s| - 1], key), key, k);
    }
  }

  // ---------------------------------------------------------------------------------------------
  // The completion list

  /** All that the direct phase has to offer. */
  function AllDirect(listing: seq<Entry>, readable: bool, parent: string, base: string): set<string> {
    Direct(Shown(listing, readable), |Shown(listing, readable)|, parent, base)
  }

  /** The recursive fallback runs. */
  ghost predicate FallsBack(listing: seq<Entry>, readable: bool, parent: string, base: string, trailingSlash: bool,
                            limit: nat) {
    !trailingSlash && |base| >= 3 && |AllDirect(listing, readable, parent, base)| < limit / 2
  }

  /** Each candidate comes from the first of the entries `idx` that gives it, and these entries follow one another. */
  ghost predicate Follows(candidates: seq<string>, idx: seq<nat>, entries: seq<Entry>, parent: string, base: string) {
    && |idx| == |candidates|
    && (forall k :: 0 <= k < |idx| ==> IsFirstFor(entries, idx[k], parent, base, candidates[k]))
    && (forall j, k :: 0 <= j < k < |idx| ==> idx[j] < idx[k])
  }

  ghost predicate FollowsTo(candidates: seq<string>, idx: seq<nat>, entries: seq<Entry>, i: nat, parent: string,
                            base: string) {
    Follows(candidates, idx, entries, parent, base) && forall k :: 0 <= k < |idx| ==> idx[k] < i
  }

  ghost predicate IsFirstFor(entries: seq<Entry>, i: nat, parent: string, base: string, c: string) {
    && i < |entries| && DirectKey(entries[i], parent, base) == Some(c)
    && forall j :: 0 <= j < i ==> DirectKey(entries[j], parent, base) != Some(c)
  }

  ghost predicate InListingOrder(candidates: seq<string>, entries: seq<Entry>, parent: string, base: string) {
    exists idx :: Follows(candidates, idx, entries, parent, base)
  }

  lemma {:induction false} NotGivenBefore(entries: seq<Entry>, n: nat, parent: string, base: string, c: string)
    requires n <= |entries| && c !in Direct(entries, n, parent, base)
    ensures forall j :: 0 <= j < n ==> DirectKey(entries[j], parent, base) != Some(c)
  {
    if n > 0 { NotGivenBefore(entries, n - 1, parent, base, c); }
  }

  lemma FollowsMore(candidates: seq<string>, idx: seq<nat>, entries: seq<Entry>, parent: string, base: string, i: nat,
                    c: string)
    requires FollowsTo(candidates, idx, entries, i, parent, base)
    requires i < |entries| && DirectKey(entries[i], parent, base) == Some(c) && c !in Direct(entries, i, parent, base)
    ensures FollowsTo(candidates + [c], idx + [i], entries, i + 1, parent, base)
  {
    NotGivenBefore(entries, i, parent, base, c);
  }

  lemma FollowsOn(candidates: seq<string>, idx: seq<nat>, entries: seq<Entry>, parent: string, base: string, i: nat)
    requires FollowsTo(candidates, idx, entries, i, parent, base)
    ensures FollowsTo(candidates, idx, entries, i + 1, parent, base)
    ensures InListingOrder(candidates, entries, parent, base)
  {
  }

  /** One child: its candidate goes to the end unless it is there already. */
  method OfferChild(entries: seq<Entry>, i: nat, parent: string, base: string, ghost limit: nat,
                    candidates0: seq<string>, seen0: set<string>, ghost idx0: seq<nat>)
    returns (candidates: seq<string>, seen: set<string>, ghost idx: seq<nat>)
    requires i < |entries| && Kept(candidates0, seen0, limit) && |candidates0| < limit
    requires seen0 == Direct(entries, i, parent, base) && FollowsTo(candidates0, idx0, entries, i, parent, base)
    ensures Kept(candidates, seen, limit) && seen == Direct(entries, i + 1, parent, base)
    ensures FollowsTo(candidates, idx, entries, i + 1, parent, base)
    ensures InListingOrder(candidates, entries, parent, base)
  {
    var key := DirectKey(entries[i], parent, base);
    DirectStep(entries, i, parent, base, key);
    if key.Some? && key.value !in seen0 {
      FollowsMore(candidates0, idx0, entries, parent, base, i, key.value);
      idx := idx0 + [i];
    } else {
      FollowsOn(candidates0, idx0, entries, parent, base, i);
      idx := idx0;
    }
    candidates, seen := Offer(key, candidates0, seen0, limit);
    FollowsOn(candidates, idx, entries, parent, base, i + 1);
  }

  lemma DirectStep(entries: seq<Entry>, i: nat, parent: string, base: string, key: Option<string>)
    requires i < |entries| && key == DirectKey(entries[i], parent, base)
    ensures Direct(entries, i + 1, parent, base) == Direct(entries, i, parent, base) + AsSet(key)
  {
  }

  /** The first phase: the shown children, in order, until the cap. */
  method DirectPhase(entries: seq<Entry>, parent: string, base: string, limit: nat)
    returns (candidates: seq<string>, seen: set<string>)
    requires limit >= 1
    ensures Kept(candidates, seen, limit) && InListingOrder(candidates, entries, parent, base)
    ensures seen <= Direct(entries, |entries|, parent, base)
    ensures |candidates| < limit ==> seen == Direct(entries, |entries|, parent, base)
  {
    candidates, seen := [], {};
    ghost var idx: seq<nat> := [];
    FollowsOn(candidates, idx, entries, parent, base, 0);
    for i := 0 to |entries|
      invariant Kept(candidates, seen, limit) && |candidates| < limit
      invariant seen == Direct(entries, i, parent, base)
      invariant FollowsTo(candidates, idx, entries, i, parent, base)
      invariant InListingOrder(candidates, entries, parent, base)
    {
      candidates, seen, idx := OfferChild(entries, i, parent, base, limit, candidates, seen, idx);
      if |candidates| >= limit {
        DirectGrows(entries, i + 1, parent, base);
        return;
      }
    }
  }

  /** `_glob_at_candidates` for a listed directory; `parent` and `base` are the two halves of the typed token. */
  method GlobCandidates(listing: seq<Entry>, readable: bool, parent: string, base: string, trailingSlash: bool,
                        limit: nat)
    returns (candidates: seq<string>)
    requires limit >= 1
    ensures Distinct(candidates) && |candidates| <= limit
    ensures forall c :: c in candidates ==>
              || IsDirectMatch(Shown(listing, readable), parent, base, c)
              || (readable && FallsBack(listing, readable, parent, base, trailingSlash, limit) &&
                  IsFallbackMatch(listing, parent, base, c))
    ensures trailingSlash || |base| < 3 ==>
              forall c :: c in candidates ==> IsDirectMatch(Shown(listing, readable), parent, base, c)
    ensures !FallsBack(listing, readable, parent, base, trailingSlash, limit) ==>
              var direct := AllDirect(listing, readable, parent, base);
              && InListingOrder(candidates, Shown(listing, readable), parent, base)
              && Elements(candidates) <= direct && (|direct| <= limit ==> Elements(candidates) == direct)
    ensures FallsBack(listing, readable, parent, base, trailingSlash, limit) ==>
              var direct, root := AllDirect(listing, readable, parent, base), Item(readable, listing, parent);
              && PathsInOrder(candidates)
              && (exists depth :: FoundTo(Elements(candidates), direct, root, base, depth))
              && direct <= Elements(candidates) <= direct + ItemReachable(root, base)
              && (ItemScan(root) <= 2000 && |direct + ItemReachable(root, base)| <= limit ==>
                    Elements(candidates) == direct + ItemReachable(root, base))
  {
    var entries := ScandirEntries(listing, readable);
    ghost var direct := AllDirect(listing, readable, parent, base);
    var seen;
    candidates, seen := DirectPhase(entries, parent, base, limit);
    KeptDistinct(candidates);
    Collections.SubsetIsSmaller(seen, direct);
    if trailingSlash || |base| < 3 || |candidates| >= limit / 2 {
      if |direct| <= |candidates| { Collections.SubsetIsAll(seen, direct); }
      CandidatesMatch(candidates, listing, readable, parent, base);
      return;
    }
    ghost var looked, depth;
    candidates, seen, looked, depth := Search(Item(readable, listing, parent), base, limit, candidates, seen);
    KeptDistinct(candidates);
    SortKeepsElements(candidates);
    assert FoundTo(Elements(candidates), direct, Item(readable, listing, parent), base, depth);
    SortSorts(candidates, PathKey);
    candidates := Sort(candidates, PathKey);
    SortedPathsInOrder(candidates);
    CandidatesMatch(candidates, listing, readable, parent, base);
  }

  lemma CandidatesMatch(candidates: seq<string>, listing: seq<Entry>, readable: bool, parent: string, base: string)
    requires var root := Item(readable, listing, parent);
             Elements(candidates) <= AllDirect(listing, readable, parent, base) + ItemReachable(root, base)
    ensures forall c :: c in candidates ==>
              || IsDirectMatch(Shown(listing, readable), parent, base, c)
              || (readable && IsFallbackMatch(listing, parent, base, c))
    ensures Elements(candidates) <= AllDirect(listing, readable, parent, base) ==>
              forall c :: c in candidates ==> IsDirectMatch(Shown(listing, readable), parent, base, c)
  {
    var shown := Shown(listing, readable);
    ElementsAre(candidates);
    forall c | c in AllDirect(listing, readable, parent, base)
      ensures IsDirectMatch(shown, parent, base, c)
    {
      DirectMatch(shown, |shown|, parent, base, c);
    }
    forall c | c in ItemReachable(Item(readable, listing, parent), base)
      ensures readable && IsFallbackMatch(listing, parent, base, c)
    {
      ReachableMatch(listing, parent, base, c);
    }
  }

  /** The path of an entry of the listing whose name starts with the base, ignoring case. */
  ghost predicate IsDirectMatch(entries: seq<Entry>, parent: string, base: string, c: string) {
    exists e :: e in entries && Matches(e.name, base) && DirectKey(e, parent, base) == Some(c)
  }

  lemma SortKeepsElements(candidates: seq<string>)
    requires Distinct(candidates)
    ensures Distinct(Sort(candidates, PathKey)) && Elements(Sort(candidates, PathKey)) == Elements(candidates)
    ensures |Sort(candidates, PathKey)| == |candidates|
  {
    var sorted := Sort(candidates, PathKey);
    SortPermutes(candidates, PathKey);
    SortedDistinct(candidates, sorted);
    ElementsAre(candidates);
    ElementsAre(sorted);
  }

  /** A direct candidate is the path of a shown entry whose name matches what was typed. */
  lemma {:induction false} DirectMatch(entries: seq<Entry>, n: nat, parent: string, base: string, c: string)
    requires n <= |entries| && c in Direct(entries, n, parent, base)
    ensures IsDirectMatch(entries, parent, base, c)
  {
    if c in AsSet(DirectKey(entries[n - 1], parent, base)) {
      assert entries[n - 1] in entries;
    } else {
      DirectMatch(entries, n - 1, parent, base, c);
    }
  }

  lemma {:induction false} DirectGrows(entries: seq<Entry>, n: nat, parent: string, base: string)
    requires n <= |entries|
    ensures Direct(entries, n, parent, base) <= Direct(entries, |entries|, parent, base)
    ensures |Direct(entries, n, parent, base)| <= |Direct(entries, |entries|, parent, base)|
    decreases |entries| - n
  {
    if n < |entries| {
      DirectGrows(entries, n + 1, parent, base);
    }
    Collections.SubsetIsSmaller(Direct(entries, n, parent, base), Direct(entries, |entries|, parent, base));
  }

  lemma SortedDistinct(a: seq<string>, b: seq<string>)
    requires Distinct(a) && multiset(a) == multiset(b)
    ensures Distinct(b) && forall c :: c in a <==> c in b
  {
    SameElements(a, b);
    forall i, j | 0 <= i < j < |b|
      ensures b[i] != b[j]
    {
      OnceEach(a, b[i]);
      if b[i] == b[j] { Twice(b, i, j); }
    }
  }

  lemma {:induction false} OnceEach(a: seq<string>, c: string)
    requires Distinct(a)
    ensures multiset(a)[c] <= 1
  {
    if a != [] {
      var n := |a| - 1;
      assert a == a[..n] + [a[n]];
      OnceEach(a[..n], c);
      if a[n] == c { assert c !in a[..n]; assert c !in multiset(a[..n]); }
    }
  }

  lemma Twice(b: seq<string>, i: nat, j: nat)
    requires i < j < |b| && b[i] == b[j]
    ensures multiset(b)[b[i]] >= 2
  {
    assert b == b[..i] + [b[i]] + b[i + 1..j] + [b[j]] + b[j + 1..];
  }

  // ---------------------------------------------------------------------------------------------
  // Cycling

  /** `complete_at_line`: the token after `@` replaced by each candidate. */
  function Complete(before: string, candidates: seq<string>): (r: seq<string>)
    ensures |r| == |candidates|
  {
    seq(|candidates|, i requires 0 <= i < |candidates| => before + "@" + candidates[i])
  }

  lemma {:induction false} CompleteDistinct(before: string, candidates: seq<string>)
    requires Distinct(candidates)
    ensures Distinct(Complete(before, candidates))
  {
    var r := Complete(before, candidates);
    forall i, j | 0 <= i < j < |r|
      ensures r[i] != r[j]
    {
      var n := |before| + 1;
      assert r[i][n..] == candidates[i] && r[j][n..] == candidates[j];
    }
  }

  function IndexOf(s: seq<string>, c: string): (i: nat)
    requires c in s
    ensures i < |s| && s[i] == c && forall j :: 0 <= j < i ==> s[j] != c
  {
    if s[0] == c then 0 else 1 + IndexOf(s[1..], c)
  }

  /** `cycle_at_completion` */
  function Cycle(candidates: seq<string>, current: Option<string>): (next: Option<string>)
    ensures next.None? <==> candidates == []
    ensures candidates != [] && (current.None? || current.value !in candidates) ==> next == Some(candidates[0])
  {
    if candidates == [] then None
    else if current.Some? && current.value in candidates then
      Some(candidates[(IndexOf(candidates, current.value) + 1) % |candidates|])
    else Some(candidates[0])
  }

  function CycleTimes(candidates: seq<string>, current: Option<string>, n: nat): Option<string> {
    if n == 0 then current else Cycle(candidates, CycleTimes(candidates, current, n - 1))
  }

  /** The index `n` places after `i` in a ring of `k`. */
  function Around(i: nat, n: nat, k: nat): (r: nat)
    requires i < k && n <= k
    ensures r < k
  {
    if i + n < k then i + n else i + n - k
  }

  lemma NextAround(i: nat, k: nat)
    requires i < k
    ensures (i + 1) % k == Around(i, 1, k)
  {
    if i + 1 == k { assert k % k == 0; }
  }

  lemma NextCandidate(candidates: seq<string>, k: nat)
    requires Distinct(candidates) && k < |candidates|
    ensures Cycle(candidates, Some(candidates[k])) == Some(candidates[Around(k, 1, |candidates|)])
  {
    assert IndexOf(candidates, candidates[k]) == k;
    NextAround(k, |candidates|);
  }

  /** From candidate `i`, cycling `n` times leads to the candidate `n` places further round the ring. */
  lemma {:induction false} CycleVisitsAll(candidates: seq<string>, i: nat, n: nat)
    requires Distinct(candidates) && i < |candidates| && n <= |candidates|
    ensures CycleTimes(candidates, Some(candidates[i]), n) == Some(candidates[Around(i, n, |candidates|)])
  {
    if n > 0 {
      CycleVisitsAll(candidates, i, n - 1);
      NextCandidate(candidates, Around(i, n - 1, |candidates|));
    }
  }

  /** As many steps as there are candidates come back to the first; fewer never meet the same candidate twice. */
  lemma {:induction false} CycleReturns(candidates: seq<string>, i: nat, m: nat, n: nat)
    requires Distinct(candidates) && i < |candidates| && m < n <= |candidates|
    ensures CycleTimes(candidates, Some(candidates[i]), |candidates|) == Some(candidates[i])
    ensures CycleTimes(candidates, Some(candidates[i]), m) == CycleTimes(candidates, Some(candidates[i]), n)
            <==> m == 0 && n == |candidates|
  {
    var k := |candidates|;
    CycleVisitsAll(candidates, i, k);
    CycleVisitsAll(candidates, i, m);
    CycleVisitsAll(candidates, i, n);
    assert Around(i, m, k) == Around(i, n, k) <==> m == 0 && n == k;
  }

  /** How many steps lead from `i` forward to `j`. */
  function Steps(i: nat, j: nat, k: nat): (n: nat)
    requires i < k && j < k
    ensures n < k && Around(i, n, k) == j
  {
    if i <= j then j - i else j + k - i
  }

  /** Every candidate is reached by fewer steps than there are candidates. */
  lemma {:induction false} CycleReaches(candidates: seq<string>, i: nat, j: nat)
    requires Distinct(candidates) && i < |candidates| && j < |candidates|
    ensures CycleTimes(candidates, Some(candidates[i]), Steps(i, j, |candidates|)) == Some(candidates[j])
  {
    CycleVisitsAll(candidates, i, Steps(i, j, |candidates|));
  }
}
