/** Applying a unified diff to a file's text (`apply_unified_diff`,
    rust/synapse-core-tool/src/file_tools.rs:308-381).  Hunks are located by content, not by their line numbers. */
module UnifiedDiff {
  import opened Wrappers
  import opened Lines

  datatype Hunk = Hunk(old_: seq<string>, new_: seq<string>)

  datatype PatchError = InvalidPatch | HunkFailed(number: nat)

  // ---------------------------------------------------------------------------------------------
  // Reading the patch

  predicate IsHeader(line: string) {
    "@@" <= line
  }

  /** One line of a hunk body: context, removal, addition; anything else is skipped. */
  function AddLine(h: Hunk, line: string): Hunk {
    if line != [] && line[0] == ' ' then Hunk(h.old_ + [line[1..]], h.new_ + [line[1..]])
    else if line != [] && line[0] == '-' then h.(old_ := h.old_ + [line[1..]])
    else if line != [] && line[0] == '+' then h.(new_ := h.new_ + [line[1..]])
    else h
  }

  function ParseBody(body: seq<string>): Hunk {
    if body == [] then Hunk([], [])
    else AddLine(ParseBody(body[..|body| - 1]), body[|body| - 1])
  }

  /** Lines before the next header. */
  function BodyLength(lines: seq<string>): (n: nat)
    ensures n <= |lines|
    ensures forall i :: 0 <= i < n ==> !IsHeader(lines[i])
    ensures n < |lines| ==> IsHeader(lines[n])
  {
    if lines == [] || IsHeader(lines[0]) then 0 else 1 + BodyLength(lines[1..])
  }

  function ParseHunks(patch: seq<string>): seq<Hunk>
    decreases |patch|
  {
    if patch == [] then []
    else if !IsHeader(patch[0]) then ParseHunks(patch[1..])
    else
      var n := BodyLength(patch[1..]);
      [ParseBody(patch[1..][..n])] + ParseHunks(patch[1..][n..])
  }

  // ---------------------------------------------------------------------------------------------
  // The two blocks of a hunk

  function CountMarked(body: seq<string>, mark: char): nat {
    if body == [] then 0
    else CountMarked(body[..|body| - 1], mark) + if body[|body| - 1] != [] && body[|body| - 1][0] == mark then 1 else 0
  }

  /** The line belongs to the block of this mark: context, or so marked itself. */
  predicate Marked(line: string, mark: char) {
    line != [] && (line[0] == ' ' || line[0] == mark)
  }

  /** How many lines of the block come before line `i` of the body. */
  function Place(body: seq<string>, i: nat, mark: char): nat
    requires i <= |body|
  {
    CountMarked(body[..i], ' ') + CountMarked(body[..i], mark)
  }

  /** Line `i` of the body is entry `p` of the block. */
  ghost predicate Fills(body: seq<string>, mark: char, i: nat, p: nat) {
    i < |body| && Marked(body[i], mark) && Place(body, i, mark) == p
  }

  ghost predicate IsFilled(body: seq<string>, mark: char, p: nat) {
    exists i :: Fills(body, mark, i, p)
  }

  /** The block is the lines that belong to it without their marks, in order, and nothing else. */
  ghost predicate IsBlock(body: seq<string>, mark: char, block: seq<string>) {
    && |block| == Place(body, |body|, mark)
    && (forall i: nat, p: nat :: Fills(body, mark, i, p) ==> p < |block| && block[p] == body[i][1..])
    && (forall p :: 0 <= p < |block| ==> IsFilled(body, mark, p))
  }

  /** A hunk's old block is its context and removed lines, its new block its context and added lines. */
  lemma {:induction false} BodyBlocks(body: seq<string>)
    ensures IsBlock(body, '-', ParseBody(body).old_) && IsBlock(body, '+', ParseBody(body).new_)
  {
    if body == [] {
      NothingFilled('-');
      NothingFilled('+');
    } else {
      var front := body[..|body| - 1];
      BodyBlocks(front);
      LastLine(body);
      BlockGrows(body, '-', ParseBody(front).old_);
      BlockGrows(body, '+', ParseBody(front).new_);
    }
  }

  lemma NothingFilled(mark: char)
    ensures IsBlock([], mark, [])
  {
    var none: seq<string> := [];
    assert Place(none, 0, mark) == 0 && forall i: nat, p: nat :: !Fills(none, mark, i, p);
  }

  /** What the last line of a body adds. */
  function WithLast(body: seq<string>, mark: char, before: seq<string>): seq<string>
    requires body != []
  {
    var last := body[|body| - 1];
    if Marked(last, mark) then before + [last[1..]] else before
  }

  lemma LastLine(body: seq<string>)
    requires body != []
    ensures ParseBody(body).old_ == WithLast(body, '-', ParseBody(body[..|body| - 1]).old_)
    ensures ParseBody(body).new_ == WithLast(body, '+', ParseBody(body[..|body| - 1]).new_)
  {
    OneLine(ParseBody(body[..|body| - 1]), body[|body| - 1]);
  }

  lemma OneLine(h: Hunk, line: string)
    ensures AddLine(h, line).old_ == if Marked(line, '-') then h.old_ + [line[1..]] else h.old_
    ensures AddLine(h, line).new_ == if Marked(line, '+') then h.new_ + [line[1..]] else h.new_
  {
  }

  lemma BlockGrows(body: seq<string>, mark: char, before: seq<string>)
    requires body != [] && mark != ' ' && IsBlock(body[..|body| - 1], mark, before)
    ensures IsBlock(body, mark, WithLast(body, mark, before))
  {
    var n := |body| - 1;
    var front, block := body[..n], WithLast(body, mark, before);
    PlacesStay(body, mark);
    forall i: nat, p: nat | Fills(body, mark, i, p)
      ensures p < |block| && block[p] == body[i][1..]
    {
      if i < n { assert Fills(front, mark, i, p); }
    }
    forall p | 0 <= p < |block|
      ensures IsFilled(body, mark, p)
    {
      if p < |before| {
        assert IsFilled(front, mark, p);
        var i :| Fills(front, mark, i, p);
        assert Fills(body, mark, i, p);
      } else {
        assert Fills(body, mark, n, p);
      }
    }
  }

  lemma PlacesStay(body: seq<string>, mark: char)
    requires body != [] && mark != ' '
    ensures var n := |body| - 1;
            && (forall i :: 0 <= i <= n ==> Place(body, i, mark) == Place(body[..n], i, mark))
            && Place(body, |body|, mark) == Place(body, n, mark) + if Marked(body[n], mark) then 1 else 0
  {
    var n := |body| - 1;
    assert body[..|body|] == body;
    forall i | 0 <= i <= n
      ensures Place(body, i, mark) == Place(body[..n], i, mark)
    {
      assert body[..n][..i] == body[..i];
    }
  }

  // ---------------------------------------------------------------------------------------------
  // Applying hunks

  predicate OccursAt(lines: seq<string>, block: seq<string>, p: nat) {
    p + |block| <= |lines| && lines[p..p + |block|] == block
  }

  ghost predicate IsLeftmost(lines: seq<string>, block: seq<string>, r: Option<nat>) {
    match r
    case Some(p) => OccursAt(lines, block, p) && forall q :: 0 <= q < p ==> !OccursAt(lines, block, q)
    case None => forall q :: 0 <= q ==> !OccursAt(lines, block, q)
  }

  /** The leftmost occurrence at `from` or later. */
  function LeftmostFrom(lines: seq<string>, block: seq<string>, from: nat): (r: Option<nat>)
    ensures match r
            case Some(p) =>
              from <= p && OccursAt(lines, block, p) && forall q :: from <= q < p ==> !OccursAt(lines, block, q)
            case None => forall q :: from <= q ==> !OccursAt(lines, block, q)
    decreases |lines| - from
  {
    if from + |block| > |lines| then None
    else if OccursAt(lines, block, from) then Some(from)
    else LeftmostFrom(lines, block, from + 1)
  }

  function Leftmost(lines: seq<string>, block: seq<string>): (r: Option<nat>)
    ensures IsLeftmost(lines, block, r)
  {
    LeftmostFrom(lines, block, 0)
  }

  /** `(0..=n).find(..)`; an empty block is found at the start. */
  method FindBlock(lines: seq<string>, block: seq<string>) returns (r: Option<nat>)
    ensures r == Leftmost(lines, block)
  {
    if block == [] {
      assert OccursAt(lines, block, 0);
      return Some(0);
    }
    var p := 0;
    while p + |block| <= |lines|
      invariant LeftmostFrom(lines, block, 0) == LeftmostFrom(lines, block, p)
    {
      if lines[p..p + |block|] == block { return Some(p); }
      p := p + 1;
    }
    return None;
  }

  function Splice(lines: seq<string>, p: nat, h: Hunk): seq<string>
    requires p + |h.old_| <= |lines|
  {
    lines[..p] + h.new_ + lines[p + |h.old_|..]
  }

  /** Each hunk replaces the leftmost occurrence of its old block in the lines the hunks before it left; an error
      is the number of the first hunk whose old block is missing. */
  function Fold(lines: seq<string>, hunks: seq<Hunk>): Result<seq<string>, nat>
    decreases |hunks|
  {
    if hunks == [] then Ok(lines)
    else
      match Leftmost(lines, hunks[0].old_)
      case None => Err(1)
      case Some(p) => Later(Fold(Splice(lines, p, hunks[0]), hunks[1..]), 1)
  }

  function Later(r: Result<seq<string>, nat>, n: nat): Result<seq<string>, nat> {
    match r
    case Ok(_) => r
    case Err(k) => Err(k + n)
  }

  // ---------------------------------------------------------------------------------------------
  // The whole edit

  function Ending(content: string): string {
    if exists i :: 0 <= i < |content| - 1 && content[i] == '\r' && content[i + 1] == '\n' then CRLF else "\n"
  }

  function ContentLines(content: string): seq<string> {
    var normalized := Normalize(content);
    if normalized == [] then [] else Split(TrimNewlines(normalized))
  }

  function Render(lines: seq<string>, content: string): string {
    var output := Join(lines, Ending(content));
    if content != [] && content[|content| - 1] == '\n' && output != [] then output + Ending(content) else output
  }

  /** `apply_unified_diff` */
  method ApplyUnifiedDiff(content: string, patch: string) returns (r: Result<(string, nat), PatchError>)
    ensures var hunks := ParseHunks(StrLines(patch));
            match Fold(ContentLines(content), hunks)
            case Ok(lines) =>
              r == if hunks == [] then Err(InvalidPatch) else Ok((Render(lines, content), |hunks|))
            case Err(number) => r == Err(HunkFailed(number))
  {
    var applied := ApplyHunks(ContentLines(content), StrLines(patch));
    match applied
    case Err(number) => return Err(HunkFailed(number));
    case Ok((lines, count)) =>
      if count == 0 { return Err(InvalidPatch); }
      return Ok((Render(lines, content), count));
  }

  /** The outer loop over the patch. */
  method ApplyHunks(before: seq<string>, patchLines: seq<string>) returns (r: Result<(seq<string>, nat), nat>)
    ensures var hunks := ParseHunks(patchLines);
            match Fold(before, hunks)
            case Ok(lines) => r == Ok((lines, |hunks|))
            case Err(number) => r == Err(number)
  {
    var lines := before;
    ghost var all := ParseHunks(patchLines);
    ghost var todo := all;
    var count := 0;
    var index := 0;
    assert patchLines[0..] == patchLines;
    while index < |patchLines|
      invariant 0 <= index <= |patchLines| && count + |todo| == |all|
      invariant todo == ParseHunks(patchLines[index..])
      invariant Fold(before, all) == Later(Fold(lines, todo), count)
      decreases |patchLines| - index
    {
      assert patchLines[index..][1..] == patchLines[index + 1..];
      if !IsHeader(patchLines[index]) {
        index := index + 1;
      } else {
        var hunk, next := ReadHunk(patchLines, index + 1);
        assert patchLines[index + 1..][next - (index + 1)..] == patchLines[next..];
        ghost var rest := ParseHunks(patchLines[next..]);
        assert todo == [hunk] + rest;
        FoldStep(lines, hunk, rest, count);
        var position := FindBlock(lines, hunk.old_);
        count := count + 1;
        if position.None? {
          return Err(count);
        }
        lines := Splice(lines, position.value, hunk);
        todo := rest;
        index := next;
      }
    }
    assert patchLines[index..] == [];
    return Ok((lines, count));
  }

  lemma FoldStep(lines: seq<string>, hunk: Hunk, rest: seq<Hunk>, count: nat)
    ensures match Leftmost(lines, hunk.old_)
            case None => Later(Fold(lines, [hunk] + rest), count) == Err(count + 1)
            case Some(p) =>
              Later(Fold(lines, [hunk] + rest), count) == Later(Fold(Splice(lines, p, hunk), rest), count + 1)
  {
    assert ([hunk] + rest)[1..] == rest;
  }

  /** The inner loop: collect one hunk's blocks up to the next header. */
  method ReadHunk(patchLines: seq<string>, start: nat) returns (hunk: Hunk, next: nat)
    requires start <= |patchLines|
    ensures next == start + BodyLength(patchLines[start..])
    ensures hunk == ParseBody(patchLines[start..][..next - start])
    ensures IsBlock(patchLines[start..][..next - start], '-', hunk.old_)
    ensures IsBlock(patchLines[start..][..next - start], '+', hunk.new_)
  {
    hunk, next := Hunk([], []), start;
    ghost var rest := patchLines[start..];
    ghost var n := BodyLength(rest);
    while next < |patchLines| && !IsHeader(patchLines[next])
      invariant start <= next <= start + n
      invariant hunk == ParseBody(rest[..next - start])
      decreases |patchLines| - next
    {
      assert rest[next - start] == patchLines[next];
      assert rest[..next + 1 - start][..next - start] == rest[..next - start];
      hunk := AddLine(hunk, patchLines[next]);
      next := next + 1;
    }
    assert next < |patchLines| ==> patchLines[next] == rest[next - start];
    BodyBlocks(rest[..next - start]);
  }

  // ---------------------------------------------------------------------------------------------
  // Main results

  /** A run of the hunks: the lines before and after each, and where each was applied. */
  ghost predicate IsTrace(lines: seq<string>, hunks: seq<Hunk>, states: seq<seq<string>>, places: seq<nat>) {
    && |states| == |places| + 1 && |places| <= |hunks| && states[0] == lines
    && forall k :: 0 <= k < |places| ==>
         && IsLeftmost(states[k], hunks[k].old_, Some(places[k]))
         && states[k + 1] == Splice(states[k], places[k], hunks[k])
  }

  /** The fold is what it should be: a success has a complete run ending in its lines, a failure at hunk `n` a run
      of the hunks before it into lines that do not contain its old block. */
  lemma {:induction false} FoldHasTrace(lines: seq<string>, hunks: seq<Hunk>)
    returns (states: seq<seq<string>>, places: seq<nat>)
    ensures IsTrace(lines, hunks, states, places)
    ensures match Fold(lines, hunks)
            case Ok(result) => |places| == |hunks| && states[|places|] == result
            case Err(n) => 1 <= n <= |hunks| && |places| == n - 1 && IsLeftmost(states[n - 1], hunks[n - 1].old_, None)
    decreases |hunks|
  {
    states, places := [lines], [];
    if hunks != [] && Leftmost(lines, hunks[0].old_).Some? {
      var p := Leftmost(lines, hunks[0].old_).value;
      var s, q := FoldHasTrace(Splice(lines, p, hunks[0]), hunks[1..]);
      TraceOnto(lines, hunks, p, s, q);
      states, places := [lines] + s, [p] + q;
    }
  }

  lemma TraceOnto(lines: seq<string>, hunks: seq<Hunk>, p: nat, s: seq<seq<string>>, q: seq<nat>)
    requires hunks != [] && IsLeftmost(lines, hunks[0].old_, Some(p))
    requires IsTrace(Splice(lines, p, hunks[0]), hunks[1..], s, q)
    ensures IsTrace(lines, hunks, [lines] + s, [p] + q)
  {
    var states, places := [lines] + s, [p] + q;
    forall k | 0 <= k < |places|
      ensures IsLeftmost(states[k], hunks[k].old_, Some(places[k]))
      ensures states[k + 1] == Splice(states[k], places[k], hunks[k])
    {
      if k > 0 { assert hunks[k] == hunks[1..][k - 1] && states[k] == s[k - 1] && places[k] == q[k - 1]; }
    }
  }

  /** Conversely a complete run settles the fold: the edit succeeds exactly when every hunk in turn finds its old
      block, and there is only one result. */
  lemma {:induction false} TraceIsFold(lines: seq<string>, hunks: seq<Hunk>, states: seq<seq<string>>, places: seq<nat>)
    requires IsTrace(lines, hunks, states, places) && |places| == |hunks|
    ensures Fold(lines, hunks) == Ok(states[|hunks|])
    decreases |hunks|
  {
    if hunks != [] {
      TraceTail(lines, hunks, states, places);
      LeftmostUnique(lines, hunks[0].old_, places[0]);
      TraceIsFold(states[1], hunks[1..], states[1..], places[1..]);
    }
  }

  lemma TraceTail(lines: seq<string>, hunks: seq<Hunk>, states: seq<seq<string>>, places: seq<nat>)
    requires IsTrace(lines, hunks, states, places) && places != []
    ensures IsTrace(states[1], hunks[1..], states[1..], places[1..])
    ensures IsLeftmost(lines, hunks[0].old_, Some(places[0])) && states[1] == Splice(lines, places[0], hunks[0])
  {
    forall k | 0 <= k < |places| - 1
      ensures IsLeftmost(states[1..][k], hunks[1..][k].old_, Some(places[1..][k]))
      ensures states[1..][k + 1] == Splice(states[1..][k], places[1..][k], hunks[1..][k])
    {
      assert IsLeftmost(states[k + 1], hunks[k + 1].old_, Some(places[k + 1]));
    }
  }

  lemma LeftmostUnique(lines: seq<string>, block: seq<string>, p: nat)
    requires IsLeftmost(lines, block, Some(p))
    ensures Leftmost(lines, block) == Some(p)
  {
    assert OccursAt(lines, block, p);
  }

  function Growth(hunks: seq<Hunk>): int {
    if hunks == [] then 0 else |hunks[0].new_| - |hunks[0].old_| + Growth(hunks[1..])
  }

  /** A hunk grows the file by its additions minus its removals. */
  lemma {:induction false} BodyGrowth(body: seq<string>)
    ensures |ParseBody(body).new_| - |ParseBody(body).old_| == CountMarked(body, '+') - CountMarked(body, '-')
  {
    if body != [] { BodyGrowth(body[..|body| - 1]); }
  }

  function Headers(patch: seq<string>): nat {
    if patch == [] then 0 else (if "@@" <= patch[0] then 1 else 0) + Headers(patch[1..])
  }

  /** There is one hunk for each line that begins with "@@": the hunk of such a line reads the lines after it, up to
      the next one. */
  lemma {:induction false} HunkOfHeader(patch: seq<string>, i: nat)
    requires i < |patch| && "@@" <= patch[i]
    ensures Headers(patch[..i]) < |ParseHunks(patch)| == Headers(patch)
    ensures ParseHunks(patch)[Headers(patch[..i])] == HunkAt(patch, i)
  {
    HunkCount(patch);
    HunkIsThere(patch, i);
  }

  lemma {:induction false} HunkIsThere(patch: seq<string>, i: nat)
    requires i < |patch| && IsHeader(patch[i])
    ensures Headers(patch[..i]) < |ParseHunks(patch)| && ParseHunks(patch)[Headers(patch[..i])] == HunkAt(patch, i)
    decreases |patch|
  {
    if i == 0 {
      FirstHunk(patch);
    } else {
      var n := 1 + Skipped(patch);
      BeyondBody(patch, i);
      HunkIsThere(patch[n..], i - n);
      HunkBehind(patch, n, i);
    }
  }

  lemma BeyondBody(patch: seq<string>, i: nat)
    requires 0 < i < |patch| && IsHeader(patch[i])
    ensures Skipped(patch) < i && patch[1 + Skipped(patch)..][i - 1 - Skipped(patch)] == patch[i]
  {
    assert patch[1..][i - 1] == patch[i];
  }

  lemma HunkBehind(patch: seq<string>, n: nat, i: nat)
    requires patch != [] && n == 1 + Skipped(patch) <= i < |patch|
    requires var rest, k := patch[n..], Headers(patch[n..][..i - n]);
             k < |ParseHunks(rest)| && ParseHunks(rest)[k] == HunkAt(rest, i - n)
    ensures Headers(patch[..i]) < |ParseHunks(patch)| && ParseHunks(patch)[Headers(patch[..i])] == HunkAt(patch, i)
  {
    SameHunk(patch, n, i);
    HeadersBehind(patch, n, i);
    HunksSkip(patch);
  }

  lemma HeadersBehind(patch: seq<string>, n: nat, i: nat)
    requires patch != [] && n == 1 + Skipped(patch) <= i < |patch|
    ensures Headers(patch[..i]) == (if IsHeader(patch[0]) then 1 else 0) + Headers(patch[n..][..i - n])
  {
    HeadersSkip(patch, n - 1, i);
    assert patch[..i][n..] == patch[n..][..i - n];
  }

  lemma FirstHunk(patch: seq<string>)
    requires patch != [] && IsHeader(patch[0])
    ensures Headers(patch[..0]) == 0 && ParseHunks(patch) != [] && ParseHunks(patch)[0] == HunkAt(patch, 0)
  {
    assert patch[..0] == [];
  }

  lemma HunksSkip(patch: seq<string>)
    requires patch != []
    ensures ParseHunks(patch) ==
              (if IsHeader(patch[0]) then [HunkAt(patch, 0)] else []) + ParseHunks(patch[1 + Skipped(patch)..])
  {
    assert patch[1..][Skipped(patch)..] == patch[1 + Skipped(patch)..];
  }

  /** The lines of the first hunk's body, if the first line begins one. */
  function Skipped(patch: seq<string>): (n: nat)
    requires patch != []
    ensures n < |patch|
  {
    if IsHeader(patch[0]) then BodyLength(patch[1..]) else 0
  }

  function HunkAt(patch: seq<string>, i: nat): Hunk
    requires i < |patch|
  {
    ParseBody(patch[i + 1..][..BodyLength(patch[i + 1..])])
  }

  lemma SameHunk(patch: seq<string>, n: nat, i: nat)
    requires n <= i < |patch|
    ensures HunkAt(patch[n..], i - n) == HunkAt(patch, i)
  {
    assert patch[n..][i - n + 1..] == patch[i + 1..];
  }

  lemma HeadersSkip(patch: seq<string>, n: nat, i: nat)
    requires n < i <= |patch| && forall k :: 1 <= k <= n ==> !IsHeader(patch[k])
    ensures Headers(patch[..i]) == (if IsHeader(patch[0]) then 1 else 0) + Headers(patch[..i][1 + n..])
  {
    NoHeaders(patch[..i][1..], n);
    assert patch[..i][1..][n..] == patch[..i][1 + n..];
  }

  lemma {:induction false} NoHeaders(lines: seq<string>, n: nat)
    requires n <= |lines| && forall k :: 0 <= k < n ==> !IsHeader(lines[k])
    ensures Headers(lines) == Headers(lines[n..])
  {
    if n > 0 {
      NoHeaders(lines[1..], n - 1);
      assert lines[1..][n - 1..] == lines[n..];
    } else {
      assert lines[0..] == lines;
    }
  }

  lemma {:induction false} HunkCount(patch: seq<string>)
    ensures |ParseHunks(patch)| == Headers(patch)
    decreases |patch|
  {
    if patch != [] {
      var n := Skipped(patch);
      NoHeaders(patch[1..], n);
      assert patch[1..][0..] == patch[1..];
      HunkCount(patch[1..][n..]);
    }
  }

  /** An empty file has no line, not one empty line: adding to it gives just the added lines. */
  lemma {:induction false} AddToEmptyFile(added: seq<string>)
    ensures Fold(ContentLines(""), [Hunk([], added)]) == Ok(added)
  {
    assert ContentLines("") == [];
    var none: seq<string> := [];
    assert OccursAt(none, [], 0);
    LeftmostUnique(none, [], 0);
    FoldOne(none, Hunk([], added), 0);
    assert Splice(none, 0, Hunk([], added)) == added;
  }

  /** The number of lines changes by exactly what the hunks add and remove. */
  lemma {:induction false} FoldGrowth(lines: seq<string>, hunks: seq<Hunk>)
    ensures Fold(lines, hunks).Ok? ==> |Fold(lines, hunks).value| == |lines| + Growth(hunks)
    decreases |hunks|
  {
    if hunks != [] && Leftmost(lines, hunks[0].old_).Some? {
      FoldGrowth(Splice(lines, Leftmost(lines, hunks[0].old_).value, hunks[0]), hunks[1..]);
    }
  }

  /** Hunks of context only change no line. */
  lemma {:induction false} ContextFold(lines: seq<string>, hunks: seq<Hunk>)
    requires forall i :: 0 <= i < |hunks| ==> hunks[i].old_ == hunks[i].new_
    ensures Fold(lines, hunks).Ok? ==> Fold(lines, hunks).value == lines
    decreases |hunks|
  {
    if hunks != [] && Leftmost(lines, hunks[0].old_).Some? {
      SpliceSame(lines, Leftmost(lines, hunks[0].old_).value, hunks[0]);
      ContextFold(lines, hunks[1..]);
    }
  }

  lemma SpliceSame(lines: seq<string>, p: nat, h: Hunk)
    requires OccursAt(lines, h.old_, p) && h.old_ == h.new_
    ensures Splice(lines, p, h) == lines
  {
  }

  /** Either no CRLF at all, or every newline is one. */
  ghost predicate UniformEndings(content: string) {
    !HasCrlf(content) || AllCrlf(content)
  }

  /** An edit that changes no line gives the content back byte for byte exactly when the content is empty, or its
      line endings are uniform, it is not made of newlines only, and it ends in at most one of them. */
  lemma {:induction false} UnchangedLinesIff(content: string)
    ensures var normalized := Normalize(content);
            var trimmed := TrimNewlines(normalized);
            Render(ContentLines(content), content) == content <==>
            content == [] || (UniformEndings(content) && trimmed != [] && |normalized| <= |trimmed| + 1)
  {
    NormalizeEnds(content);
    if content != [] {
      var normalized := Normalize(content);
      var trimmed := TrimNewlines(normalized);
      JoinOfSplit(trimmed, Ending(content));
      if trimmed == [] {
        assert Render(ContentLines(content), content) == [];
      } else {
        RenderIsExpand(content);
        var kept := Kept(content);
        if |normalized| <= |trimmed| + 1 { assert kept == normalized; }
        if UniformEndings(content) && kept == normalized { ExpandRestores(content); }
        if Expand(kept, Ending(content)) == content { RestoredIsUniform(content, kept); }
      }
    }
  }

  /** The text that survives splitting: all but surplus trailing newlines. */
  function Kept(content: string): string {
    var normalized := Normalize(content);
    var trimmed := TrimNewlines(normalized);
    if |normalized| > |trimmed| then trimmed + "\n" else trimmed
  }

  lemma RenderIsExpand(content: string)
    requires content != [] && TrimNewlines(Normalize(content)) != []
    ensures Render(ContentLines(content), content) == Expand(Kept(content), Ending(content))
  {
    var normalized := Normalize(content);
    var trimmed := TrimNewlines(normalized);
    NormalizeEnds(content);
    JoinOfSplit(trimmed, Ending(content));
    ExpandConcat(trimmed, "\n", Ending(content));
    assert Expand("\n", Ending(content)) == Ending(content);
    assert Expand(trimmed, Ending(content)) != [];
  }

  lemma ExpandRestores(content: string)
    requires UniformEndings(content)
    ensures Expand(Normalize(content), Ending(content)) == content
  {
    if HasCrlf(content) {
      ExpandOfNormalize(content);
    } else {
      NormalizeWithout(content);
      ExpandByNewline(content);
    }
  }

  lemma RestoredIsUniform(content: string, kept: string)
    requires Expand(kept, Ending(content)) == content
    ensures UniformEndings(content) && kept == Normalize(content)
  {
    if HasCrlf(content) {
      ExpandAllCrlf(kept);
      NormalizeOfExpand(kept);
    } else {
      ExpandByNewline(kept);
      NormalizeWithout(content);
    }
  }

  /** So a patch whose hunks are all matching context is the identity on exactly those contents. */
  lemma {:induction false} ContextPatchIsIdentityIff(content: string, hunks: seq<Hunk>)
    requires Fold(ContentLines(content), hunks).Ok?
    requires forall i :: 0 <= i < |hunks| ==> hunks[i].old_ == hunks[i].new_
    ensures var normalized := Normalize(content);
            var trimmed := TrimNewlines(normalized);
            Render(Fold(ContentLines(content), hunks).value, content) == content <==>
            content == [] || (UniformEndings(content) && trimmed != [] && |normalized| <= |trimmed| + 1)
  {
    ContextFold(ContentLines(content), hunks);
    UnchangedLinesIff(content);
  }

  /** A hunk with additions and removals exchanged. */
  function SwapLine(line: string): string {
    if line != [] && line[0] == '-' then ['+'] + line[1..]
    else if line != [] && line[0] == '+' then ['-'] + line[1..]
    else line
  }

  function SwapBody(body: seq<string>): (r: seq<string>)
    ensures |r| == |body|
  {
    seq(|body|, i requires 0 <= i < |body| => SwapLine(body[i]))
  }

  lemma {:induction false} SwappedBody(body: seq<string>)
    ensures ParseBody(SwapBody(body)) == Hunk(ParseBody(body).new_, ParseBody(body).old_)
  {
    if body != [] {
      var n := |body| - 1;
      assert SwapBody(body)[..n] == SwapBody(body[..n]);
      SwappedBody(body[..n]);
    }
  }

  /** Applying a hunk and then its reverse restores the lines if and only if the inserted block's leftmost occurrence
      in the result is where it was put; the reversed hunk finds its block in any case. */
  lemma {:induction false} ReverseRestoresIff(lines: seq<string>, body: seq<string>, p: nat)
    requires Leftmost(lines, ParseBody(body).old_) == Some(p)
    ensures var changed := Splice(lines, p, ParseBody(body));
            var back := Fold(changed, [ParseBody(SwapBody(body))]);
            && Fold(lines, [ParseBody(body)]) == Ok(changed)
            && back.Ok?
            && (back.value == lines <==> Leftmost(changed, ParseBody(body).new_) == Some(p))
  {
    var h := ParseBody(body);
    SwappedBody(body);
    FoldOne(lines, h, p);
    SpliceBack(lines, p, h);
    var changed := Splice(lines, p, h);
    assert OccursAt(changed, h.new_, p);
    var q := Leftmost(changed, h.new_).value;
    FoldOne(changed, Hunk(h.new_, h.old_), q);
    if q < p { PutBackEarlier(changed, q, h); }
  }

  /** Put back at `q`, the old block occurs at `q`: too early to be the original lines. */
  lemma PutBackEarlier(changed: seq<string>, q: nat, h: Hunk)
    requires OccursAt(changed, h.new_, q)
    ensures OccursAt(Splice(changed, q, Hunk(h.new_, h.old_)), h.old_, q)
  {
  }

  lemma FoldOne(lines: seq<string>, h: Hunk, p: nat)
    requires Leftmost(lines, h.old_) == Some(p)
    ensures Fold(lines, [h]) == Ok(Splice(lines, p, h))
  {
    assert [h][1..] == [];
  }

  lemma SpliceBack(lines: seq<string>, p: nat, h: Hunk)
    requires OccursAt(lines, h.old_, p)
    ensures Splice(Splice(lines, p, h), p, Hunk(h.new_, h.old_)) == lines
  {
    var changed := Splice(lines, p, h);
    assert changed[..p] == lines[..p];
    assert changed[p + |h.new_|..] == lines[p + |h.old_|..];
    assert lines == lines[..p] + lines[p..p + |h.old_|] + lines[p + |h.old_|..];
  }

  lemma OneForOther()
    ensures ParseBody(["-a", "+x"]) == Hunk(["a"], ["x"])
  {
    var body := ["-a", "+x"];
    assert body[..1] == ["-a"] && body[..1][..0] == [];
    assert ParseBody(["-a"]) == Hunk(["a"], []);
  }

  /** Replacing "a" by "x" below another "x" and reversing that changes the first "x" instead. */
  lemma {:induction false} ReverseMisses()
    ensures var lines, body := ["x", "a"], ["-a", "+x"];
            && Fold(lines, [ParseBody(body)]) == Ok(["x", "x"])
            && Fold(["x", "x"], [ParseBody(SwapBody(body))]) == Ok(["a", "x"])
  {
    var body := ["-a", "+x"];
    var h := ParseBody(body);
    OneForOther();
    SwappedBody(body);
    assert ["x", "a"][0..1][0] == "x";
    assert OccursAt(["x", "a"], ["a"], 1) && !OccursAt(["x", "a"], ["a"], 0);
    LeftmostUnique(["x", "a"], ["a"], 1);
    FoldOne(["x", "a"], h, 1);
    assert Splice(["x", "a"], 1, h) == ["x", "x"];
    assert OccursAt(["x", "x"], ["x"], 0);
    LeftmostUnique(["x", "x"], ["x"], 0);
    FoldOne(["x", "x"], Hunk(["x"], ["a"]), 0);
    assert Splice(["x", "x"], 0, Hunk(["x"], ["a"])) == ["a", "x"];
  }

  /** A hunk of matching context takes one of two trailing newlines away. */
  lemma {:induction false} ContextLosesNewline()
    ensures var content, hunk := "a\n\n", Hunk(["a"], ["a"]);
            && Fold(ContentLines(content), [hunk]) == Ok(["a"])
            && Render(["a"], content) == "a\n"
  {
    var content := "a\n\n";
    assert content[1..] == "\n\n" && content[1..][1..] == "\n" && content[1..][1..][1..] == [];
    assert !HasCrlf(content);
    NormalizeWithout(content);
    assert content[..2] == "a\n" && content[..2][..1] == "a";
    assert TrimNewlines(content) == "a";
    assert Split("a") == ["a"] by { assert "a"[1..] == [] && Split([]) == [[]] && ['a'] + [] == "a"; }
    assert ContentLines(content) == ["a"];
    assert OccursAt(["a"], ["a"], 0);
    LeftmostUnique(["a"], ["a"], 0);
    FoldOne(["a"], Hunk(["a"], ["a"]), 0);
    assert Splice(["a"], 0, Hunk(["a"], ["a"])) == ["a"];
  }
}
