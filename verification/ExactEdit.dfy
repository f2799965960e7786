/** Replacing an exact string in a file, whatever its line endings (`apply_exact_edit`,
    rust/synapse-core-tool/src/file_tools.rs:213-277).  Occurrences are those of the left-to-right scan that
    `str::matches` makes, which do not overlap. */
module ExactEdit {
  import opened Wrappers
  import opened Lines

  datatype EditError = StringsMustDiffer | OldStringNotFound | OldStringFoundMultipleTimes

  predicate Occurs(s: string, pat: string, p: nat) {
    p + |pat| <= |s| && s[p..p + |pat|] == pat
  }

  // ---------------------------------------------------------------------------------------------
  // What the scan finds

  /** The scan finds nothing exactly when there is nothing to find. */
  lemma {:induction false} NoMatchIff(s: string, pat: string)
    requires pat != []
    ensures CountMatches(s, pat) == 0 <==> forall p :: 0 <= p ==> !Occurs(s, pat, p)
    decreases |s|
  {
    if s != [] {
      if pat <= s {
        assert Occurs(s, pat, 0);
      } else {
        NoMatchIff(s[1..], pat);
        assert !Occurs(s, pat, 0);
        forall p: nat
          ensures Occurs(s, pat, p + 1) <==> Occurs(s[1..], pat, p)
        {
          OccursBehind(s, pat, p + 1);
        }
        assert forall p :: 1 <= p ==> (Occurs(s, pat, p) <==> Occurs(s[1..], pat, p - 1));
      }
    }
  }

  /** Where the scan's first match is. */
  function First(s: string, pat: string): nat
    requires pat != [] && CountMatches(s, pat) > 0
  {
    if pat <= s then 0 else 1 + First(s[1..], pat)
  }

  lemma {:induction false} FirstOccurs(s: string, pat: string)
    requires pat != [] && CountMatches(s, pat) > 0
    ensures var p := First(s, pat);
            Occurs(s, pat, p) && CountMatches(s, pat) == 1 + CountMatches(s[p + |pat|..], pat)
    decreases |s|
  {
    var p := First(s, pat);
    if p > 0 {
      FirstOccurs(s[1..], pat);
      OccursBehind(s, pat, p);
      assert s[1..][p - 1 + |pat|..] == s[p + |pat|..];
    } else {
      assert s[0..|pat|] == pat;
    }
  }

  lemma {:induction false} FirstIsLeftmost(s: string, pat: string, q: nat)
    requires pat != [] && CountMatches(s, pat) > 0 && q < First(s, pat)
    ensures !Occurs(s, pat, q)
  {
    if q > 0 {
      FirstIsLeftmost(s[1..], pat, q - 1);
      OccursBehind(s, pat, q);
    }
  }

  lemma OccursBehind(s: string, pat: string, p: nat)
    requires s != [] && p > 0
    ensures Occurs(s, pat, p) <==> Occurs(s[1..], pat, p - 1)
  {
    if p + |pat| <= |s| { assert s[1..][p - 1..p - 1 + |pat|] == s[p..p + |pat|]; }
  }

  lemma {:induction false} FirstReplaced(s: string, pat: string, sub: string, p: nat)
    requires pat != [] && CountMatches(s, pat) > 0 && p == First(s, pat) && p + |pat| <= |s|
    ensures ReplaceFirst(s, pat, sub) == s[..p] + sub + s[p + |pat|..]
  {
    if p > 0 {
      FirstReplaced(s[1..], pat, sub, p - 1);
      Shift(s, sub, p, |pat|);
    }
  }

  lemma Shift(s: string, sub: string, p: nat, n: nat)
    requires 0 < p && p + n <= |s|
    ensures [s[0]] + (s[1..][..p - 1] + sub + s[1..][p - 1 + n..]) == s[..p] + sub + s[p + n..]
  {
    assert s[..p] == [s[0]] + s[1..][..p - 1];
    assert s[1..][p - 1 + n..] == s[p + n..];
  }

  lemma OneMoreTime(k: nat, d: int)
    ensures (1 + k) * d == d + k * d
  {
  }

  /** Replacing all matches changes the length by the number of matches times the difference. */
  lemma {:induction false} ReplaceLength(s: string, pat: string, sub: string)
    requires pat != []
    ensures |Replace(s, pat, sub)| == |s| + CountMatches(s, pat) * (|sub| - |pat|)
    decreases |s|
  {
    if s != [] {
      if pat <= s {
        ReplaceLength(s[|pat|..], pat, sub);
        OneMoreTime(CountMatches(s[|pat|..], pat), |sub| - |pat|);
      } else {
        ReplaceLength(s[1..], pat, sub);
      }
    }
  }

  /** The text is the pieces with the pattern between them; the pattern occurs in none of them, nor anywhere else before
      the end of a piece and the pattern behind it. */
  ghost predicate IsCut(s: string, pat: string, pieces: seq<string>) {
    && pieces != [] && s == Join(pieces, pat)
    && (forall i :: 0 <= i < |pieces| - 1 ==> EndsFirst(pieces[i] + pat, pat))
    && OccursNowhere(pieces[|pieces| - 1], pat)
  }

  ghost predicate OccursNowhere(s: string, pat: string) {
    forall p :: 0 <= p ==> !Occurs(s, pat, p)
  }

  ghost predicate EndsFirst(s: string, pat: string) {
    forall p :: 0 <= p < |s| - |pat| ==> !Occurs(s, pat, p)
  }

  /** Replacing all is cutting the text at the pattern from left to right and joining the pieces by the replacement. */
  lemma {:induction false} ReplaceJoins(s: string, pat: string, sub: string) returns (pieces: seq<string>)
    requires pat != []
    ensures IsCut(s, pat, pieces) && |pieces| == 1 + CountMatches(s, pat)
    ensures Replace(s, pat, sub) == Join(pieces, sub)
    decreases |s|
  {
    if CountMatches(s, pat) == 0 {
      NoMatchIff(s, pat);
      NothingReplaced(s, pat, sub);
      pieces := [s];
    } else {
      var p := First(s, pat);
      FirstOccurs(s, pat);
      var rest := ReplaceJoins(s[p + |pat|..], pat, sub);
      ReplacedUpTo(s, pat, sub, p);
      pieces := [s[..p]] + rest;
      CutGrows(s, pat, p, rest);
      JoinFirst(s[..p], rest, sub);
    }
  }

  lemma {:induction false} NothingReplaced(s: string, pat: string, sub: string)
    requires pat != [] && CountMatches(s, pat) == 0
    ensures Replace(s, pat, sub) == s
  {
    if s != [] {
      NothingReplaced(s[1..], pat, sub);
      assert s == [s[0]] + s[1..];
    }
  }

  lemma {:induction false} ReplacedUpTo(s: string, pat: string, sub: string, p: nat)
    requires pat != [] && CountMatches(s, pat) > 0 && p == First(s, pat) && p + |pat| <= |s|
    ensures Replace(s, pat, sub) == s[..p] + sub + Replace(s[p + |pat|..], pat, sub)
  {
    if p > 0 {
      ReplacedUpTo(s[1..], pat, sub, p - 1);
      assert s[1..][p - 1 + |pat|..] == s[p + |pat|..];
      assert s[..p] == [s[0]] + s[1..][..p - 1];
    }
  }

  lemma CutGrows(s: string, pat: string, p: nat, rest: seq<string>)
    requires pat != [] && CountMatches(s, pat) > 0 && p == First(s, pat) && Occurs(s, pat, p)
    requires IsCut(s[p + |pat|..], pat, rest)
    ensures IsCut(s, pat, [s[..p]] + rest)
  {
    InThree(s, p, p + |pat|);
    FirstPiece(s, pat, p);
    CutInFront(s, pat, s[..p], s[p + |pat|..], rest);
  }

  lemma InThree(s: string, p: nat, q: nat)
    requires p <= q <= |s|
    ensures s == s[..p] + s[p..q] + s[q..]
  {
  }

  lemma CutInFront(s: string, pat: string, first: string, tail: string, rest: seq<string>)
    requires s == first + pat + tail && EndsFirst(first + pat, pat) && IsCut(tail, pat, rest)
    ensures IsCut(s, pat, [first] + rest)
  {
    JoinFirst(first, rest, pat);
    PiecesEndFirst(first, rest, pat);
  }

  lemma PiecesEndFirst(first: string, rest: seq<string>, pat: string)
    requires rest != [] && EndsFirst(first + pat, pat)
    requires forall i :: 0 <= i < |rest| - 1 ==> EndsFirst(rest[i] + pat, pat)
    ensures var pieces := [first] + rest;
            pieces[|pieces| - 1] == rest[|rest| - 1] &&
            forall i :: 0 <= i < |pieces| - 1 ==> EndsFirst(pieces[i] + pat, pat)
  {
    var pieces := [first] + rest;
    forall i | 0 <= i < |pieces| - 1
      ensures EndsFirst(pieces[i] + pat, pat)
    {
      if i > 0 { assert pieces[i] == rest[i - 1]; }
    }
  }

  lemma JoinFirst(first: string, rest: seq<string>, sep: string)
    requires rest != []
    ensures Join([first] + rest, sep) == first + sep + Join(rest, sep)
  {
    assert ([first] + rest)[1..] == rest;
  }

  lemma FirstPiece(s: string, pat: string, p: nat)
    requires pat != [] && CountMatches(s, pat) > 0 && p == First(s, pat) && Occurs(s, pat, p)
    ensures EndsFirst(s[..p] + pat, pat)
  {
    var front := s[..p] + pat;
    assert front == s[..p + |pat|];
    forall q | 0 <= q < |front| - |pat|
      ensures !Occurs(front, pat, q)
    {
      FirstIsLeftmost(s, pat, q);
      assert front[q..q + |pat|] == s[q..q + |pat|];
    }
  }

  // ---------------------------------------------------------------------------------------------
  // Candidates

  type Candidate = (string, string)

  /** `push_candidate` */
  function Push(candidates: seq<Candidate>, c: Candidate): seq<Candidate> {
    if c in candidates then candidates else candidates + [c]
  }

  /** `line_ending_candidates`: as given, with LF, with CRLF; equal pairs once. */
  function Candidates(old_: string, new_: string): (r: seq<Candidate>)
    requires old_ != []
    ensures 1 <= |r| <= 3 && r[0] == (old_, new_)
    ensures forall i, j :: 0 <= i < j < |r| ==> r[i] != r[j]
    ensures forall c :: c in r <==>
              c == (old_, new_) || c == (Normalize(old_), Normalize(new_)) ||
              c == (Expand(Normalize(old_), CRLF), Expand(Normalize(new_), CRLF))
    ensures forall c :: c in r ==> c.0 != []
    ensures forall i, j :: 0 <= i < |r| && 0 < j < |r| && r[i] == (Normalize(old_), Normalize(new_)) && r[j] != r[i] ==>
              i < j
  {
    NormalizeEnds(old_);
    var lf := (Normalize(old_), Normalize(new_));
    Push(Push([(old_, new_)], lf), (Expand(lf.0, CRLF), Expand(lf.1, CRLF)))
  }

  /** Writing every newline as CRLF is what `replace('\n', "\r\n")` does. */
  lemma {:induction false} ExpandIsReplace(s: string)
    ensures Expand(s, CRLF) == Replace(s, "\n", CRLF)
  {
    if s != [] {
      ExpandIsReplace(s[1..]);
      assert "\n" <= s <==> s[0] == '\n';
    }
  }

  // ---------------------------------------------------------------------------------------------
  // The edit

  /** `text` is `previous` with the single scan match of the candidate replaced. */
  ghost predicate IsSingleEdit(previous: string, c: Candidate, text: string) {
    exists p: nat ::
      && Occurs(previous, c.0, p)
      && text == previous[..p] + c.1 + previous[p + |c.0|..]
      && (forall q :: 0 <= q < p ==> !Occurs(previous, c.0, q))
      && (forall q :: p + |c.0| <= q ==> !Occurs(previous, c.0, q))
  }

  /** `text` is `previous` cut at the candidate from left to right and joined by its replacement. */
  ghost predicate IsFullEdit(previous: string, c: Candidate, text: string, count: nat) {
    exists pieces :: IsCut(previous, c.0, pieces) && |pieces| == count + 1 && text == Join(pieces, c.1)
  }

  /** What a candidate makes of the text, and how many replacements are reported. */
  ghost predicate IsEdit(previous: string, c: Candidate, all: bool, text: string, count: nat)
    requires c.0 != []
  {
    && count == CountMatches(previous, c.0)
    && if all then IsFullEdit(previous, c, text, count) && |text| == |previous| + count * (|c.1| - |c.0|)
       else IsSingleEdit(previous, c, text)
  }

  /** The candidate `i` is the first one the scan finds the required number of times. */
  ghost predicate IsFirst(previous: string, candidates: seq<Candidate>, i: nat, all: bool)
    requires forall c :: c in candidates ==> c.0 != []
  {
    && i < |candidates|
    && Wanted(CountMatches(previous, candidates[i].0), all)
    && forall j :: 0 <= j < i ==> !Wanted(CountMatches(previous, candidates[j].0), all)
  }

  predicate Wanted(count: nat, all: bool) {
    if all then count > 0 else count == 1
  }

  /** `apply_exact_edit` */
  method ApplyExactEdit(previous: string, old_: string, new_: string, replaceAll: bool)
    returns (r: Result<(string, nat), EditError>, ghost chosen: nat)
    ensures r == Err(StringsMustDiffer) <==> old_ == new_
    ensures old_ == [] && old_ != new_ ==> r == Ok((new_, 1))
    ensures old_ != [] && old_ != new_ ==>
              var candidates := Candidates(old_, new_);
              match r
              case Ok((text, count)) =>
                IsFirst(previous, candidates, chosen, replaceAll) &&
                IsEdit(previous, candidates[chosen], replaceAll, text, count)
              case Err(e) =>
                && (forall c :: c in candidates ==> !Wanted(CountMatches(previous, c.0), replaceAll))
                && (e == OldStringFoundMultipleTimes <==>
                      exists i :: 0 <= i < |candidates| && CountMatches(previous, candidates[i].0) > 1)
                && e != StringsMustDiffer
  {
    chosen := 0;
    if old_ == new_ { return Err(StringsMustDiffer), 0; }
    if old_ == [] { return Ok((new_, 1)), 0; }
    var candidates := Candidates(old_, new_);
    var ambiguous := false;
    for i := 0 to |candidates|
      invariant forall j :: 0 <= j < i ==> !Wanted(CountMatches(previous, candidates[j].0), replaceAll)
      invariant ambiguous <==> exists j :: 0 <= j < i && CountMatches(previous, candidates[j].0) > 1
    {
      var (oldCandidate, newCandidate) := candidates[i];
      assert candidates[i] in candidates;
      var count := CountMatches(previous, oldCandidate);
      if replaceAll {
        if count > 0 {
          FullEdit(previous, candidates[i]);
          return Ok((Replace(previous, oldCandidate, newCandidate), count)), i;
        }
      } else if count == 1 {
        SingleEdit(previous, candidates[i]);
        return Ok((ReplaceFirst(previous, oldCandidate, newCandidate), 1)), i;
      } else if count > 1 {
        ambiguous := true;
      }
    }
    return Err(if ambiguous then OldStringFoundMultipleTimes else OldStringNotFound), 0;
  }

  lemma NoneAfter(s: string, pat: string, n: nat)
    requires pat != [] && n <= |s| && CountMatches(s[n..], pat) == 0
    ensures forall q :: n <= q ==> !Occurs(s, pat, q)
  {
    NoMatchIff(s[n..], pat);
    forall q | n <= q && q + |pat| <= |s|
      ensures !Occurs(s, pat, q)
    {
      assert !Occurs(s[n..], pat, q - n);
      assert s[n..][q - n..q - n + |pat|] == s[q..q + |pat|];
    }
  }

  lemma FullEdit(previous: string, c: Candidate)
    requires c.0 != []
    ensures IsEdit(previous, c, true, Replace(previous, c.0, c.1), CountMatches(previous, c.0))
  {
    ReplaceLength(previous, c.0, c.1);
    var pieces := ReplaceJoins(previous, c.0, c.1);
  }

  lemma SingleEdit(previous: string, c: Candidate)
    requires c.0 != [] && CountMatches(previous, c.0) == 1
    ensures IsEdit(previous, c, false, ReplaceFirst(previous, c.0, c.1), 1)
  {
    var p := First(previous, c.0);
    FirstOccurs(previous, c.0);
    FirstReplaced(previous, c.0, c.1, p);
    NoneAfter(previous, c.0, p + |c.0|);
    forall q | 0 <= q < p
      ensures !Occurs(previous, c.0, q)
    {
      FirstIsLeftmost(previous, c.0, q);
    }
  }

  /** The scan sees one match of "aa" in "aaa" where two overlap: "exactly once" is about the scan. */
  lemma {:induction false} OverlappingCountsOnce()
    ensures CountMatches("aaa", "aa") == 1 && Occurs("aaa", "aa", 0) && Occurs("aaa", "aa", 1)
  {
    assert "aa" <= "aaa";
    assert "aaa"[2..] == "a";
    assert "a"[1..] == "";
  }
}
