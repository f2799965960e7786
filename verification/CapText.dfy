/** Cutting a UTF-8 string at a byte budget without splitting a character
    (`cap_text`, rust/synapse-gui/src/git_fs.rs:1048-1059). */
module CapText {
  import opened Unicode

  /** `is_char_boundary` */
  predicate IsBoundary(b: seq<Byte>, i: nat) {
    i == 0 || i == |b| || (i < |b| && !IsTail(b[i]))
  }

  lemma ScalarBoundaries(c: char)
    ensures var e := EncodeScalar(c);
            !IsTail(e[0]) && forall i :: 1 <= i < |e| ==> IsTail(e[i])
  {
    Regroup(c as int);
  }

  /** The boundaries of an encoded string are exactly the ends of its encoded prefixes. */
  lemma {:induction false} BoundariesArePrefixes(s: string, i: nat) returns (k: nat)
    requires i <= |EncodeUtf8(s)| && IsBoundary(EncodeUtf8(s), i)
    ensures k <= |s| && EncodeUtf8(s[..k]) == EncodeUtf8(s)[..i]
  {
    if i == 0 {
      k := 0;
    } else {
      var head, tail := EncodeScalar(s[0]), EncodeUtf8(s[1..]);
      ScalarBoundaries(s[0]);
      assert forall j :: 0 <= j < |head| ==> (head + tail)[j] == head[j];
      if i > |head| && i < |head + tail| { assert (head + tail)[i] == tail[i - |head|]; }
      if i == |head| && tail != [] { assert (head + tail)[i] == tail[0]; }
      var m := BoundariesArePrefixes(s[1..], i - |head|);
      k := m + 1;
      assert s[..k][1..] == s[1..][..m];
      assert (head + tail)[..i] == head + tail[..i - |head|];
    }
  }

  lemma {:induction false} PrefixesAreBoundaries(s: string, k: nat)
    requires k <= |s|
    ensures var n := |EncodeUtf8(s[..k])|;
            n <= |EncodeUtf8(s)| && EncodeUtf8(s)[..n] == EncodeUtf8(s[..k]) && IsBoundary(EncodeUtf8(s), n)
  {
    if k > 0 {
      PrefixesAreBoundaries(s[1..], k - 1);
      assert s[..k][1..] == s[1..][..k - 1];
      var head, tail := EncodeScalar(s[0]), EncodeUtf8(s[1..]);
      var m := |EncodeUtf8(s[1..][..k - 1])|;
      assert (head + tail)[..|head| + m] == head + tail[..m];
      if m == 0 && tail != [] { FirstByte(s[1..]); }
      assert m < |tail| ==> (head + tail)[|head| + m] == tail[m];
    }
  }

  lemma FirstByte(s: string)
    requires s != []
    ensures !IsTail(EncodeUtf8(s)[0])
  {
    ScalarBoundaries(s[0]);
  }

  lemma {:induction false} LongerPrefixLonger(s: string, k: nat, m: nat)
    requires k <= m <= |s|
    ensures |EncodeUtf8(s[..k])| <= |EncodeUtf8(s[..m])|
  {
    PrefixesAreBoundaries(s[..m], k);
    assert s[..m][..k] == s[..k];
  }

  /** Cuts `text` (its bytes) at `cap`; what is left is the longest prefix of whole characters that fits. */
  method CapText(bytes: seq<Byte>, cap: nat, ghost text: string) returns (capped: seq<Byte>, cut: bool, ghost kept: nat)
    requires bytes == EncodeUtf8(text)
    ensures cut <==> |bytes| > cap
    ensures kept <= |text| && capped == EncodeUtf8(text[..kept]) && |capped| <= cap
    ensures !cut ==> kept == |text|
    ensures forall k :: kept < k <= |text| ==> |EncodeUtf8(text[..k])| > cap
  {
    if |bytes| <= cap {
      assert text[..|text|] == text;
      return bytes, false, |text|;
    }
    var end := cap;
    while end > 0 && !IsBoundary(bytes, end)
      invariant 0 <= end <= cap
      invariant forall i :: end < i <= cap ==> !IsBoundary(bytes, i)
    {
      end := end - 1;
    }
    kept := BoundariesArePrefixes(text, end);
    forall k | kept < k <= |text|
      ensures |EncodeUtf8(text[..k])| > cap
    {
      PrefixesAreBoundaries(text, k);
      LongerPrefixLonger(text, kept + 1, k);
      OneMore(text, kept);
      LongerPrefixLonger(text, kept, k);
    }
    return bytes[..end], true, kept;
  }

  /** Each further character adds at least one byte. */
  lemma OneMore(s: string, k: nat)
    requires k < |s|
    ensures |EncodeUtf8(s[..k + 1])| > |EncodeUtf8(s[..k])|
  {
    if k == 0 {
      assert s[..1][1..] == [];
    } else {
      OneMore(s[1..], k - 1);
      assert s[..k + 1][1..] == s[1..][..k] && s[..k][1..] == s[1..][..k - 1];
    }
  }
}
