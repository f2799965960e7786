/** The levels of the breadth-first path search (src/synapse/commands/slash_complete.py:727-776): what lies how many
    directories deep, and why the search comes upon shallow matches first. */
module PathLevels {
  import opened Wrappers
  import Collections
  import opened PathTree

  /** The candidates in a directory and less than `n` levels below it. */
  function Within(item: Item, base: string, n: nat): set<string>
    decreases n, 0
  {
    if n == 0 || !item.readable then {}
    else Shallow(item.entries, |item.entries|, item.prefix, base) + QueueWithin(Children(item), base, n - 1)
  }

  function QueueWithin(q: seq<Item>, base: string, n: nat): set<string>
    decreases n, |q| + 1
  {
    if q == [] then {} else QueueWithin(q[..|q| - 1], base, n) + Within(q[|q| - 1], base, n)
  }

  /** The directories in a directory. */
  function Children(item: Item): seq<Item> {
    Queued(item.entries, |item.entries|, item.prefix)
  }

  // ---------------------------------------------------------------------------------------------
  // In terms of names

  /** The candidate is the path of an entry to report that `n` names or fewer lead to. */
  ghost predicate IsNamedWithin(entries: seq<Entry>, prefix: string, base: string, c: string, n: nat) {
    exists names, e :: IsNamed(entries, prefix, base, c, names, e) && |names| <= n
  }

  lemma {:induction false} ShallowIff(entries: seq<Entry>, k: nat, prefix: string, base: string, c: string)
    requires k <= |entries|
    ensures c in Shallow(entries, k, prefix, base) <==>
            exists i :: 0 <= i < k && Key(entries[i], prefix, base) == Some(c)
  {
    if k > 0 { ShallowIff(entries, k - 1, prefix, base, c); }
  }

  /** The candidate lies below the `i`-th entry. */
  predicate LiesBelow(entries: seq<Entry>, i: nat, prefix: string, base: string, c: string, n: nat) {
    i < |entries| && Descends(entries[i]) &&
    c in Within(Item(entries[i].readable, entries[i].children, Rel(prefix, entries[i].name)), base, n)
  }

  lemma {:induction false} QueuedWithinIff(entries: seq<Entry>, k: nat, prefix: string, base: string, c: string, n: nat)
    requires k <= |entries|
    ensures c in QueueWithin(Queued(entries, k, prefix), base, n) <==>
            exists i: nat :: i < k && LiesBelow(entries, i, prefix, base, c, n)
  {
    if k > 0 {
      QueuedWithinIff(entries, k - 1, prefix, base, c, n);
      var e, q := entries[k - 1], Queued(entries, k - 1, prefix);
      if Descends(e) {
        var item := Item(e.readable, e.children, Rel(prefix, e.name));
        assert (q + [item])[..|q|] == q;
        assert c in Within(item, base, n) <==> LiesBelow(entries, k - 1, prefix, base, c, n);
      } else {
        assert q + [] == q;
      }
    }
  }

  /** Less than `n` levels down means a path of at most `n` names. */
  lemma {:induction false} WithinIff(entries: seq<Entry>, prefix: string, base: string, c: string, n: nat)
    requires Named(entries)
    ensures c in Within(Item(true, entries, prefix), base, n) <==> IsNamedWithin(entries, prefix, base, c, n)
    decreases n
  {
    if n > 0 {
      forall i: nat | i < |entries| && entries[i].Dir? && entries[i].readable
        ensures c in Within(Item(true, entries[i].children, Rel(prefix, entries[i].name)), base, n - 1) <==>
                IsNamedWithin(entries[i].children, Rel(prefix, entries[i].name), base, c, n - 1)
      {
        assert entries[i] in entries;
        WithinIff(entries[i].children, Rel(prefix, entries[i].name), base, c, n - 1);
      }
      if c in Within(Item(true, entries, prefix), base, n) { WithinIsNamed(entries, prefix, base, c, n); }
      if IsNamedWithin(entries, prefix, base, c, n) {
        var names, e :| IsNamed(entries, prefix, base, c, names, e) && |names| <= n;
        NamedIsWithin(entries, prefix, base, c, n, names, e);
      }
    }
  }

  /** The equivalence one level down, for the directories in this one. */
  ghost predicate BelowIff(entries: seq<Entry>, prefix: string, base: string, c: string, n: nat) {
    forall i: nat :: i < |entries| && entries[i].Dir? && entries[i].readable ==>
      (c in Within(Item(true, entries[i].children, Rel(prefix, entries[i].name)), base, n) <==>
       IsNamedWithin(entries[i].children, Rel(prefix, entries[i].name), base, c, n))
  }

  lemma WithinSplits(entries: seq<Entry>, prefix: string, base: string, c: string, n: nat)
    requires n > 0
    ensures c in Within(Item(true, entries, prefix), base, n) <==>
            c in Shallow(entries, |entries|, prefix, base) ||
            c in QueueWithin(Queued(entries, |entries|, prefix), base, n - 1)
  {
  }

  lemma WithinIsNamed(entries: seq<Entry>, prefix: string, base: string, c: string, n: nat)
    requires Named(entries) && n > 0 && BelowIff(entries, prefix, base, c, n - 1)
    requires c in Within(Item(true, entries, prefix), base, n)
    ensures IsNamedWithin(entries, prefix, base, c, n)
  {
    WithinSplits(entries, prefix, base, c, n);
    if c in Shallow(entries, |entries|, prefix, base) {
      ShallowIsNamed(entries, prefix, base, c, n);
    } else {
      var i := SomeBelow(entries, prefix, base, c, n - 1);
      BelowIsNamed(entries, i, prefix, base, c, n - 1);
    }
  }

  lemma ShallowIsNamed(entries: seq<Entry>, prefix: string, base: string, c: string, n: nat)
    requires n > 0 && c in Shallow(entries, |entries|, prefix, base)
    ensures IsNamedWithin(entries, prefix, base, c, n)
  {
    ShallowIff(entries, |entries|, prefix, base, c);
    var i :| 0 <= i < |entries| && Key(entries[i], prefix, base) == Some(c);
    KeyIsNamed(entries, i, prefix, base, c);
  }

  lemma SomeBelow(entries: seq<Entry>, prefix: string, base: string, c: string, n: nat) returns (i: nat)
    requires c in QueueWithin(Queued(entries, |entries|, prefix), base, n)
    ensures LiesBelow(entries, i, prefix, base, c, n)
  {
    QueuedWithinIff(entries, |entries|, prefix, base, c, n);
    i :| i < |entries| && LiesBelow(entries, i, prefix, base, c, n);
  }

  lemma BelowIsNamed(entries: seq<Entry>, i: nat, prefix: string, base: string, c: string, n: nat)
    requires Named(entries) && BelowIff(entries, prefix, base, c, n) && LiesBelow(entries, i, prefix, base, c, n)
    ensures IsNamedWithin(entries, prefix, base, c, n + 1)
  {
    var d := entries[i];
    assert d in entries && d.readable;
    var names, e :| IsNamed(d.children, Rel(prefix, d.name), base, c, names, e) && |names| <= n;
    NamedFromAbove(entries, prefix, base, c, d, names, e);
    assert |[d.name] + names| <= n + 1;
  }

  lemma KeyIsNamed(entries: seq<Entry>, i: nat, prefix: string, base: string, c: string)
    requires i < |entries| && Key(entries[i], prefix, base) == Some(c)
    ensures IsNamed(entries, prefix, base, c, [entries[i].name], entries[i])
  {
    var e := entries[i];
    assert e in entries && Leads(entries, [e.name], e);
    var path := Rel(prefix, e.name);
    assert IsPathOf(path, prefix, [e.name]);
    if e.Dir? { assert c[..|c| - 1] == path; } else { assert c == path; }
  }

  lemma NamedFromAbove(entries: seq<Entry>, prefix: string, base: string, c: string, d: Entry, names: seq<string>,
                       e: Entry)
    requires d in entries && d.name != [] && Descends(d) && d.readable
    requires IsNamed(d.children, Rel(prefix, d.name), base, c, names, e)
    ensures IsNamed(entries, prefix, base, c, [d.name] + names, e)
  {
    assert ([d.name] + names)[1..] == names;
    assert Leads(entries, [d.name] + names, e);
    OneNameMore(if e.Dir? then c[..|c| - 1] else c, prefix, d.name, names);
  }

  lemma NamedIsWithin(entries: seq<Entry>, prefix: string, base: string, c: string, n: nat, names: seq<string>,
                      e: Entry)
    requires Named(entries) && n > 0 && BelowIff(entries, prefix, base, c, n - 1)
    requires IsNamed(entries, prefix, base, c, names, e) && |names| <= n
    ensures c in Within(Item(true, entries, prefix), base, n)
  {
    var i := FirstName(entries, names, e);
    var d := entries[i];
    if |names| == 1 {
      assert names == [d.name];
      NamedHere(entries, i, prefix, base, c, n, names);
    } else {
      NamedInside(d, prefix, base, c, names, e);
      NamedLiesBelow(entries, i, prefix, base, c, n - 1, names[1..], e);
      BelowIsWithin(entries, i, prefix, base, c, n);
    }
  }

  /** The entry the first name stands for. */
  lemma FirstName(entries: seq<Entry>, names: seq<string>, e: Entry) returns (i: nat)
    requires Named(entries) && Leads(entries, names, e)
    ensures i < |entries| && entries[i].name == names[0] && entries[i].name != []
    ensures |names| == 1 ==> entries[i] == e
    ensures |names| > 1 ==>
              Descends(entries[i]) && entries[i].readable && Leads(entries[i].children, names[1..], e)
  {
    var d :| d in entries && d.name == names[0] &&
      if |names| == 1 then d == e else Descends(d) && d.readable && Leads(d.children, names[1..], e);
    i :| 0 <= i < |entries| && entries[i] == d;
  }

  lemma NamedHere(entries: seq<Entry>, i: nat, prefix: string, base: string, c: string, n: nat, names: seq<string>)
    requires n > 0 && i < |entries| && names == [entries[i].name]
    requires IsNamed(entries, prefix, base, c, names, entries[i])
    ensures c in Within(Item(true, entries, prefix), base, n)
  {
    NamedIsKey(prefix, base, c, entries[i], names);
    ShallowIff(entries, |entries|, prefix, base, c);
    WithinSplits(entries, prefix, base, c, n);
  }

  lemma BelowIsWithin(entries: seq<Entry>, i: nat, prefix: string, base: string, c: string, n: nat)
    requires n > 0 && LiesBelow(entries, i, prefix, base, c, n - 1)
    ensures c in Within(Item(true, entries, prefix), base, n)
  {
    QueuedWithinIff(entries, |entries|, prefix, base, c, n - 1);
    WithinSplits(entries, prefix, base, c, n);
  }

  lemma NamedInside(d: Entry, prefix: string, base: string, c: string, names: seq<string>, e: Entry)
    requires |names| > 1 && d.name == names[0] && d.name != [] && d.Dir? && Leads(d.children, names[1..], e)
    requires HasPath(prefix, base, c, names, e)
    ensures IsNamed(d.children, Rel(prefix, d.name), base, c, names[1..], e)
  {
    assert names == [d.name] + names[1..];
    if e.Dir? {
      OneNameLess(c[..|c| - 1], prefix, d.name, names[1..]);
    } else {
      OneNameLess(c, prefix, d.name, names[1..]);
    }
  }

  lemma NamedLiesBelow(entries: seq<Entry>, i: nat, prefix: string, base: string, c: string, n: nat, names: seq<string>,
                       e: Entry)
    requires BelowIff(entries, prefix, base, c, n) && i < |entries| && Descends(entries[i]) && entries[i].readable
    requires IsNamed(entries[i].children, Rel(prefix, entries[i].name), base, c, names, e) && |names| <= n
    ensures LiesBelow(entries, i, prefix, base, c, n)
  {
    assert IsNamedWithin(entries[i].children, Rel(prefix, entries[i].name), base, c, n);
  }

  lemma NamedIsKey(prefix: string, base: string, c: string, e: Entry, names: seq<string>)
    requires names == [e.name] && HasPath(prefix, base, c, names, e)
    ensures Key(e, prefix, base) == Some(c)
  {
    if e.Dir? {
      assert c[..|c| - 1] == Rel(prefix, e.name) && c == c[..|c| - 1] + "/";
    } else {
      assert c == Rel(prefix, e.name) && c + [] == c;
    }
  }

  lemma OneNameLess(c: string, prefix: string, name: string, rest: seq<string>)
    requires rest != [] && name != [] && IsPathOf(c, prefix, [name] + rest)
    ensures IsPathOf(c, Rel(prefix, name), rest)
  {
    assert ([name] + rest)[1..] == rest;
    var front := if prefix == [] then name else prefix + "/" + name;
    var inner, outer := Rel(prefix, name) + "/" + Joined(rest), front + "/" + Joined(rest);
    assert outer == (if prefix == [] then [] else prefix + "/") + Joined([name] + rest);
    assert forall i :: 0 <= i < |front| ==> inner[i] == Slashes(front)[i];
    assert forall i :: |front| <= i < |inner| ==> inner[i] == outer[i];
  }

  // ---------------------------------------------------------------------------------------------
  // The queue, level by level

  lemma {:induction false} QueueWithinConcat(a: seq<Item>, b: seq<Item>, base: string, n: nat)
    ensures QueueWithin(a + b, base, n) == QueueWithin(a, base, n) + QueueWithin(b, base, n)
    decreases |b|
  {
    if b == [] {
      assert a + b == a;
    } else {
      assert (a + b)[..|a + b| - 1] == a + b[..|b| - 1];
      QueueWithinConcat(a, b[..|b| - 1], base, n);
    }
  }

  lemma QueueWithinHead(q: seq<Item>, base: string, n: nat)
    requires q != []
    ensures QueueWithin(q, base, n) == Within(q[0], base, n) + QueueWithin(q[1..], base, n)
  {
    assert q == [q[0]] + q[1..] && [q[0]][..0] == [];
    QueueWithinConcat([q[0]], q[1..], base, n);
  }

  lemma {:induction false} NoneWithin(q: seq<Item>, base: string)
    ensures QueueWithin(q, base, 0) == {}
  {
    if q != [] { NoneWithin(q[..|q| - 1], base); }
  }

  /** All matches less than so many levels down have been found, and nothing deeper than one level more. */
  ghost predicate FoundTo(seen: set<string>, start: set<string>, root: Item, base: string, level: nat) {
    start + Within(root, base, level) <= seen <= start + Within(root, base, level + 1)
  }

  /** The first `m` directories of the queue are `level` levels down, the others one more; together with what has been
      found they hold everything there is, at each depth. */
  ghost predicate Levels(queue: seq<Item>, m: nat, seen: set<string>, start: set<string>, root: Item, base: string,
                         level: nat)
    requires m <= |queue|
  {
    && FoundTo(seen, start, root, base, level)
    && forall n: nat :: n > 0 ==> Accounts(queue, m, seen, start, root, base, level, n)
  }

  ghost predicate Accounts(queue: seq<Item>, m: nat, seen: set<string>, start: set<string>, root: Item, base: string,
                           level: nat, n: nat)
    requires m <= |queue| && n > 0
  {
    seen + QueueWithin(queue[..m], base, n) + QueueWithin(queue[m..], base, n - 1) ==
    start + Within(root, base, level + n)
  }

  lemma LevelsAtStart(start: set<string>, root: Item, base: string)
    ensures Levels([root], 1, start, start, root, base, 0)
  {
    var q := [root];
    assert q[..1] == q && q[1..] == [] && q[..0] == [];
    forall n: nat | n > 0
      ensures Accounts(q, 1, start, start, root, base, 0, n)
    {
      QueueWithinHead(q, base, n);
    }
  }

  /** Once a level is done, the whole queue is one level further down. */
  lemma NextLevel(queue: seq<Item>, seen: set<string>, start: set<string>, root: Item, base: string, level: nat)
    requires Levels(queue, 0, seen, start, root, base, level)
    ensures Levels(queue, |queue|, seen, start, root, base, level + 1)
  {
    var k, next := |queue|, level + 1;
    assert queue[..0] == [] && queue[0..] == queue && queue[..k] == queue && queue[k..] == [];
    assert Accounts(queue, 0, seen, start, root, base, level, 1);
    NoneWithin(queue, base);
    assert Accounts(queue, 0, seen, start, root, base, level, 2);
    forall n: nat | n > 0
      ensures Accounts(queue, k, seen, start, root, base, next, n)
    {
      assert Accounts(queue, 0, seen, start, root, base, level, n + 1);
    }
  }

  /** What a directory itself gives, up to entry `done`. */
  function Gives(item: Item, done: nat, base: string): set<string>
    requires done <= |item.entries|
  {
    if item.readable then Shallow(item.entries, done, item.prefix, base) else {}
  }

  function Leaves(item: Item, done: nat): seq<Item>
    requires done <= |item.entries|
  {
    if item.readable then Queued(item.entries, done, item.prefix) else []
  }

  lemma WithinUnfolds(item: Item, base: string, n: nat)
    requires n > 0
    ensures var all := |item.entries|;
            Within(item, base, n) == Gives(item, all, base) + QueueWithin(Leaves(item, all), base, n - 1)
  {
  }

  /** A directory of the current level is scanned to its end; what it holds goes behind the queue. */
  lemma PopWhole(queue: seq<Item>, m: nat, seen: set<string>, start: set<string>, root: Item, base: string, level: nat)
    requires 0 < m <= |queue| && Levels(queue, m, seen, start, root, base, level)
    ensures var all := |queue[0].entries|;
            Levels(queue[1..] + Leaves(queue[0], all), m - 1, seen + Gives(queue[0], all, base), start, root, base,
                   level)
  {
    var all := |queue[0].entries|;
    var gives, leaves := Gives(queue[0], all, base), Leaves(queue[0], all);
    var rest := queue[1..] + leaves;
    var front, back := queue[..m], queue[m..];
    var k, found := m - 1, seen + gives;
    assert rest[..k] == front[1..] && rest[k..] == back + leaves;
    forall n: nat | n > 0
      ensures Accounts(rest, k, found, start, root, base, level, n)
    {
      assert Accounts(queue, m, seen, start, root, base, level, n);
      QueueWithinHead(front, base, n);
      WithinUnfolds(queue[0], base, n);
      QueueWithinConcat(back, leaves, base, n - 1);
    }
    PopPart(queue, m, seen, start, root, base, level, all);
  }

  /** A directory of the current level is scanned in part: nothing deeper is found. */
  lemma PopPart(queue: seq<Item>, m: nat, seen: set<string>, start: set<string>, root: Item, base: string, level: nat,
                done: nat)
    requires 0 < m <= |queue| && Levels(queue, m, seen, start, root, base, level) && done <= |queue[0].entries|
    ensures FoundTo(seen + Gives(queue[0], done, base), start, root, base, level)
  {
    assert Accounts(queue, m, seen, start, root, base, level, 1);
    QueueWithinHead(queue[..m], base, 1);
    WithinUnfolds(queue[0], base, 1);
    ShallowShrinks(queue[0].entries, done, |queue[0].entries|, queue[0].prefix, base);
  }

  /** One turn of the search: `whole` says that no cap cut the scan of the first directory short. */
  lemma LevelStep(queue: seq<Item>, m: nat, seen: set<string>, start: set<string>, root: Item, base: string, level: nat,
                  done: nat, queue1: seq<Item>, seen1: set<string>, whole: bool)
    returns (m1: nat, level1: nat)
    requires queue != [] && m <= |queue| && Levels(queue, m, seen, start, root, base, level)
    requires done <= |queue[0].entries| && (whole && queue[0].readable ==> done == |queue[0].entries|)
    requires queue1 == queue[1..] + Leaves(queue[0], done) && seen1 == seen + Gives(queue[0], done, base)
    ensures FoundTo(seen1, start, root, base, level1)
    ensures whole ==> m1 <= |queue1| && Levels(queue1, m1, seen1, start, root, base, level1)
  {
    m1, level1 := m, level;
    if m == 0 {
      NextLevel(queue, seen, start, root, base, level);
      m1, level1 := |queue|, level + 1;
    }
    PopPart(queue, m1, seen, start, root, base, level1, done);
    if whole {
      PopWhole(queue, m1, seen, start, root, base, level1);
      m1 := m1 - 1;
    }
  }

  lemma {:induction false} ShallowShrinks(entries: seq<Entry>, k: nat, n: nat, prefix: string, base: string)
    requires k <= n <= |entries|
    ensures Shallow(entries, k, prefix, base) <= Shallow(entries, n, prefix, base)
  {
    if k < n { ShallowShrinks(entries, k, n - 1, prefix, base); }
  }
}
