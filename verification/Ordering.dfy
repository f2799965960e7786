/** `ORDER BY` over the keys of a table: total orders and the one list that sorts a finite set. */
module Ordering {

  ghost predicate IsOrder<K(!new)>(less: (K, K) -> bool) {
    && (forall a :: !less(a, a))
    && (forall a, b, c :: less(a, b) && less(b, c) ==> less(a, c))
    && (forall a, b :: a == b || less(a, b) || less(b, a))
  }

  ghost predicate IsDescending<K(!new)>(less: (K, K) -> bool, s: seq<K>) {
    forall i, j :: 0 <= i < j < |s| ==> less(s[j], s[i])
  }

  lemma {:induction false} Greatest<K(!new)>(less: (K, K) -> bool, s: set<K>) returns (m: K)
    requires IsOrder(less) && s != {}
    ensures m in s && forall x :: x in s ==> x == m || less(x, m)
  {
    var y :| y in s;
    if s == {y} {
      m := y;
    } else {
      assert y in s && s - {y} != {};
      m := Greatest(less, s - {y});
      if less(m, y) { m := y; }
    }
  }

  lemma HasGreatest<K(!new)>(less: (K, K) -> bool, s: set<K>)
    requires IsOrder(less) && s != {}
    ensures exists m :: m in s && forall x :: x in s ==> x == m || less(x, m)
  {
    var m := Greatest(less, s);
  }

  /** The set listed from its greatest element down. */
  ghost function Descending<K(!new)>(less: (K, K) -> bool, s: set<K>): (r: seq<K>)
    requires IsOrder(less)
    decreases |s|
  {
    if s == {} then []
    else
      HasGreatest(less, s);
      var m :| m in s && forall x :: x in s ==> x == m || less(x, m);
      assert |s - {m}| < |s|;
      [m] + Descending(less, s - {m})
  }

  lemma {:induction false} DescendingSorts<K(!new)>(less: (K, K) -> bool, s: set<K>)
    requires IsOrder(less)
    ensures var r := Descending(less, s);
            IsDescending(less, r) && |r| == |s| && forall x :: x in r <==> x in s
    decreases |s|
  {
    if s != {} {
      var r := Descending(less, s);
      var m := r[0];
      assert m in s && forall x :: x in s ==> x == m || less(x, m);
      assert |s - {m}| == |s| - 1;
      DescendingSorts(less, s - {m});
      assert r == [m] + Descending(less, s - {m});
      forall i, j | 0 <= i < j < |r|
        ensures less(r[j], r[i])
      {
        assert r[j] in s - {m};
      }
    }
  }

  // ---------------------------------------------------------------------------------------------
  // Text keys compare like SQLite's BINARY collation: UTF-8 bytes order strings as scalar values do

  predicate TextLess(a: string, b: string) {
    b != [] && (a == [] || a[0] < b[0] || (a[0] == b[0] && TextLess(a[1..], b[1..])))
  }

  lemma {:induction false} TextIrreflexive(a: string)
    ensures !TextLess(a, a)
  {
    if a != [] { TextIrreflexive(a[1..]); }
  }

  lemma {:induction false} TextTransitive(a: string, b: string, c: string)
    requires TextLess(a, b) && TextLess(b, c)
    ensures TextLess(a, c)
  {
    if a != [] && a[0] == b[0] && b[0] == c[0] { TextTransitive(a[1..], b[1..], c[1..]); }
  }

  lemma {:induction false} TextTotal(a: string, b: string)
    ensures a == b || TextLess(a, b) || TextLess(b, a)
  {
    if a != [] && b != [] && a[0] == b[0] {
      TextTotal(a[1..], b[1..]);
      assert a == [a[0]] + a[1..] && b == [b[0]] + b[1..];
    }
  }

  /** At the first place where the two differ, `a` has ended or has the smaller character. */
  ghost predicate ComesBefore(a: string, b: string) {
    exists n: nat :: DiffersAt(a, b, n)
  }

  predicate DiffersAt(a: string, b: string, n: nat) {
    n <= |a| && n < |b| && a[..n] == b[..n] && (n < |a| ==> a[n] < b[n])
  }

  lemma {:induction false} TextLessIff(a: string, b: string)
    ensures TextLess(a, b) <==> ComesBefore(a, b)
  {
    if TextLess(a, b) {
      if a == [] || a[0] < b[0] {
        assert DiffersAt(a, b, 0);
      } else {
        TextLessIff(a[1..], b[1..]);
        var n: nat :| DiffersAt(a[1..], b[1..], n);
        assert a[..n + 1] == [a[0]] + a[1..][..n] && b[..n + 1] == [b[0]] + b[1..][..n];
        assert DiffersAt(a, b, n + 1);
      }
    }
    forall n: nat | DiffersAt(a, b, n)
      ensures TextLess(a, b)
    {
      if n > 0 {
        assert a[..n][0] == b[..n][0];
        assert a[1..][..n - 1] == a[..n][1..] && b[1..][..n - 1] == b[..n][1..];
        assert DiffersAt(a[1..], b[1..], n - 1);
        TextLessIff(a[1..], b[1..]);
      }
    }
  }
}
