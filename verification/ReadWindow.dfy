/** The line window of `read` and its output budget
    (rust/synapse-core-tool/src/file_tools.rs:68-81, 178-197). */
module ReadWindow {
  import opened Lines

  const MAX_READ_LIMIT: nat := 10_000
  const MAX_READ_OUTPUT_CHARS: nat := 12_000

  /** `split_inclusive('\n')` */
  function SplitInclusive(s: string): seq<string> {
    if s == [] then []
    else if s[0] == '\n' then ["\n"] + SplitInclusive(s[1..])
    else
      var rest := SplitInclusive(s[1..]);
      if rest == [] then [[s[0]]] else [[s[0]] + rest[0]] + rest[1..]
  }

  ghost predicate IsLine(line: string) {
    line != [] && forall i :: 0 <= i < |line| - 1 ==> line[i] != '\n'
  }

  ghost predicate AreLines(lines: seq<string>) {
    && (forall i :: 0 <= i < |lines| ==> IsLine(lines[i]))
    && (forall i :: 0 <= i < |lines| - 1 ==> lines[i][|lines[i]| - 1] == '\n')
  }

  /** A line ends at its newline and nowhere else; only the last one can do without. */
  lemma {:induction false} LinesEndAtNewlines(s: string)
    ensures AreLines(SplitInclusive(s))
  {
    if s != [] {
      var rest, lines := SplitInclusive(s[1..]), SplitInclusive(s);
      LinesEndAtNewlines(s[1..]);
      if s[0] == '\n' {
        assert forall i :: 1 <= i < |lines| ==> lines[i] == rest[i - 1];
      } else if rest != [] {
        assert IsLine(rest[0]) && lines[0] == [s[0]] + rest[0];
        assert forall i :: 1 <= i < |lines| ==> lines[i] == rest[i];
      }
    }
  }

  function Concat(lines: seq<string>): string {
    if lines == [] then [] else lines[0] + Concat(lines[1..])
  }

  lemma {:induction false} SplitLosesNothing(s: string)
    ensures Concat(SplitInclusive(s)) == s
  {
    if s != [] {
      SplitLosesNothing(s[1..]);
      var rest := SplitInclusive(s[1..]);
      assert s == [s[0]] + s[1..];
      if s[0] == '\n' {
        assert (["\n"] + rest)[1..] == rest;
      } else if rest == [] {
        assert Concat([[s[0]]]) == [s[0]];
      } else {
        assert SplitInclusive(s)[1..] == rest[1..];
      }
    }
  }

  function Min(a: nat, b: nat): nat {
    if a <= b then a else b
  }

  /** Start (exclusive of the lines before it) and end of the window; offsets count from 1. */
  function Window(total: nat, offset: nat, limit: nat): (r: (nat, nat))
    requires offset >= 1 && limit >= 1
    ensures r.0 <= r.1 <= total
    ensures offset <= total + 1 ==> r.0 == offset - 1
    ensures offset > total ==> r.0 == r.1
    ensures r.1 < total ==> r.1 - r.0 == if limit <= 10_000 then limit else 10_000
    ensures r.1 - r.0 <= limit && r.1 - r.0 <= 10_000
  {
    var start := Min(offset - 1, total);
    (start, Min(start + Min(limit, MAX_READ_LIMIT), total))
  }

  /** Reading on from the line after the last one returned, until the end. */
  function ReadOn(lines: seq<string>, offset: nat, limit: nat): string
    requires offset >= 1 && limit >= 1
    decreases |lines| + 1 - offset
  {
    var (start, end) := Window(|lines|, offset, limit);
    if end == |lines| || end < offset then Concat(lines[start..end])
    else Concat(lines[start..end]) + ReadOn(lines, end + 1, limit)
  }

  lemma {:induction false} ConcatSplit(lines: seq<string>, n: nat)
    requires n <= |lines|
    ensures Concat(lines) == Concat(lines[..n]) + Concat(lines[n..])
  {
    if n > 0 {
      ConcatSplit(lines[1..], n - 1);
      assert lines[..n][1..] == lines[1..][..n - 1];
      assert lines[1..][n - 1..] == lines[n..];
    } else {
      assert lines[0..] == lines;
    }
  }

  lemma {:induction false} ReadOnIsRest(lines: seq<string>, offset: nat, limit: nat)
    requires 1 <= offset <= |lines| + 1 && limit >= 1
    ensures ReadOn(lines, offset, limit) == Concat(lines[offset - 1..])
    decreases |lines| + 1 - offset
  {
    var (start, end) := Window(|lines|, offset, limit);
    assert start == offset - 1;
    var rest := lines[start..];
    if end == |lines| {
      assert lines[start..end] == rest;
    } else {
      ReadOnIsRest(lines, end + 1, limit);
      ConcatSplit(rest, end - start);
      assert rest[..end - start] == lines[start..end];
      assert rest[end - start..] == lines[end..];
    }
  }

  /** Successive windows tile the file: together they are its text, byte for byte, for any limit. */
  lemma {:induction false} WindowsTileFile(content: string, limit: nat)
    requires limit >= 1
    ensures ReadOn(SplitInclusive(content), 1, limit) == content
  {
    var lines := SplitInclusive(content);
    ReadOnIsRest(lines, 1, limit);
    assert lines[0..] == lines;
    SplitLosesNothing(content);
  }

  /** How many windows that takes. */
  function WindowCount(total: nat, offset: nat, limit: nat): nat
    requires offset >= 1 && limit >= 1
    decreases total + 1 - offset
  {
    var (_, end) := Window(total, offset, limit);
    if end == total || end < offset then 1 else 1 + WindowCount(total, end + 1, limit)
  }

  /** Every window but the last is full: the number of reads is the number of lines divided by the limit, which is at
      most 10 000, rounded up. */
  lemma {:induction false} WindowsAreFull(total: nat, offset: nat, limit: nat)
    requires 1 <= offset <= total && limit >= 1
    ensures var n, size := WindowCount(total, offset, limit), if limit <= 10_000 then limit else 10_000;
            (n - 1) * size < total + 1 - offset <= n * size
    decreases total + 1 - offset
  {
    var size := if limit <= 10_000 then limit else 10_000;
    var (start, end) := Window(total, offset, limit);
    if end < total {
      WindowsAreFull(total, end + 1, limit);
      var m := WindowCount(total, end + 1, limit);
      assert (m + 1) * size == m * size + size && m * size == (m - 1) * size + size;
    }
  }

  // ---------------------------------------------------------------------------------------------

  /** Lines put together as the output is: a separator only once there is something before it. */
  function Assemble(lines: seq<string>): string {
    if lines == [] then []
    else
      var before := Assemble(lines[..|lines| - 1]);
      before + (if before == [] then [] else "\n") + lines[|lines| - 1]
  }

  lemma {:induction false} AssembleGrows(lines: seq<string>, n: nat)
    requires n <= |lines|
    ensures |Assemble(lines[..n])| <= |Assemble(lines)|
    decreases |lines|
  {
    if n < |lines| {
      AssembleGrows(lines[..|lines| - 1], n);
      assert lines[..|lines| - 1][..n] == lines[..n];
    } else {
      assert lines[..n] == lines;
    }
  }

  /** Without empty lines this is the ordinary join. */
  lemma {:induction false} AssembleIsJoin(lines: seq<string>)
    requires forall i :: 0 <= i < |lines| ==> lines[i] != []
    ensures Assemble(lines) == Join(lines, "\n")
  {
    if lines != [] {
      var n := |lines| - 1;
      AssembleIsJoin(lines[..n]);
      JoinLast(lines, "\n");
      if n > 0 { JoinNonEmpty(lines[..n]); }
    }
  }

  lemma JoinNonEmpty(lines: seq<string>)
    requires lines != [] && lines[0] != []
    ensures Join(lines, "\n") != []
  {
  }

  lemma {:induction false} JoinLast(lines: seq<string>, sep: string)
    requires lines != []
    ensures var n := |lines| - 1;
            Join(lines, sep) == if n == 0 then lines[0] else Join(lines[..n], sep) + sep + lines[n]
  {
    var n := |lines| - 1;
    if n == 1 {
      assert lines[..1] == [lines[0]] && lines[1..] == [lines[1]];
    } else if n > 1 {
      JoinLast(lines[1..], sep);
      assert lines[1..][..n - 1] == lines[..n][1..];
      assert lines[0] + sep + (Join(lines[1..][..n - 1], sep) + sep + lines[n])
          == (lines[0] + sep + Join(lines[1..][..n - 1], sep)) + sep + lines[n];
    }
  }

  /** `render_with_budget`: the longest run of whole lines from the start that fits the budget; truncation is
      reported exactly when the whole would not fit. */
  method RenderWithBudget(lines: seq<string>) returns (output: string, truncated: bool, ghost shown: nat)
    ensures shown <= |lines| && output == Assemble(lines[..shown]) && |output| <= 12_000
    ensures truncated <==> |Assemble(lines)| > 12_000
    ensures !truncated ==> output == Assemble(lines)
    ensures truncated ==> forall n :: shown < n <= |lines| ==> |Assemble(lines[..n])| > 12_000
  {
    output := [];
    shown := 0;
    for i := 0 to |lines|
      invariant shown == i && output == Assemble(lines[..i]) && |output| <= MAX_READ_OUTPUT_CHARS
    {
      var line := lines[i];
      var separator := if output != [] then 1 else 0;
      assert lines[..i + 1][..i] == lines[..i];
      if |output| + separator + |line| > MAX_READ_OUTPUT_CHARS {
        forall n | i < n <= |lines|
          ensures |Assemble(lines[..n])| > MAX_READ_OUTPUT_CHARS
        {
          AssembleGrows(lines[..n], i + 1);
          assert lines[..n][..i + 1] == lines[..i + 1];
        }
        assert lines[..|lines|] == lines;
        return output, true, i;
      }
      if output != [] {
        output := output + "\n";
      }
      output := output + line;
      shown := shown + 1;
    }
    assert lines[..|lines|] == lines;
    return output, false, shown;
  }
}
