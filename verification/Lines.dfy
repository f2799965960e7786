/** Text as lines: splitting, joining, and the replacements Rust's `str` offers. */
module Lines {
  import Collections

  // ---------------------------------------------------------------------------------------------
  // `str::replace`, `str::replacen(.., 1)` and `str::matches(..).count()`: left to right, not overlapping

  function Replace(s: string, pat: string, sub: string): string
    requires pat != []
    decreases |s|
  {
    if s == [] then []
    else if pat <= s then sub + Replace(s[|pat|..], pat, sub)
    else [s[0]] + Replace(s[1..], pat, sub)
  }

  function CountMatches(s: string, pat: string): nat
    requires pat != []
    decreases |s|
  {
    if s == [] then 0
    else if pat <= s then 1 + CountMatches(s[|pat|..], pat)
    else CountMatches(s[1..], pat)
  }

  function ReplaceFirst(s: string, pat: string, sub: string): string
    requires pat != []
  {
    if s == [] then []
    else if pat <= s then sub + s[|pat|..]
    else [s[0]] + ReplaceFirst(s[1..], pat, sub)
  }

  // ---------------------------------------------------------------------------------------------
  // Lines

  /** `split('\n')`: never empty. */
  function Split(s: string): (r: seq<string>)
    ensures |r| >= 1
  {
    if s == [] then [[]]
    else
      var rest := Split(s[1..]);
      if s[0] == '\n' then [[]] + rest else [[s[0]] + rest[0]] + rest[1..]
  }

  function Join(lines: seq<string>, sep: string): string {
    if lines == [] then []
    else if |lines| == 1 then lines[0]
    else lines[0] + sep + Join(lines[1..], sep)
  }

  /** `trim_end_matches('\n')`: drops all newlines at the end. */
  function TrimNewlines(s: string): (r: string)
    ensures |r| <= |s| && r == s[..|r|] && (forall i :: |r| <= i < |s| ==> s[i] == '\n')
    ensures r != [] ==> r[|r| - 1] != '\n'
  {
    if s != [] && s[|s| - 1] == '\n' then TrimNewlines(s[..|s| - 1]) else s
  }

  /** Every `'\n'` written as `ending`. */
  function Expand(s: string, ending: string): string {
    if s == [] then []
    else (if s[0] == '\n' then ending else [s[0]]) + Expand(s[1..], ending)
  }

  lemma {:induction false} JoinOfSplit(s: string, sep: string)
    ensures Join(Split(s), sep) == Expand(s, sep)
  {
    if s != [] {
      JoinOfSplit(s[1..], sep);
      var rest := Split(s[1..]);
      if s[0] == '\n' {
        assert ([[]] + rest)[1..] == rest;
      } else if |rest| > 1 {
        assert Split(s)[1..] == rest[1..];
        assert [s[0]] + rest[0] + sep + Join(rest[1..], sep) == [s[0]] + (rest[0] + sep + Join(rest[1..], sep));
      }
    }
  }

  lemma {:induction false} ExpandConcat(a: string, b: string, ending: string)
    ensures Expand(a + b, ending) == Expand(a, ending) + Expand(b, ending)
  {
    if a == [] {
      assert a + b == b;
    } else {
      assert (a + b)[1..] == a[1..] + b;
      ExpandConcat(a[1..], b, ending);
    }
  }

  lemma {:induction false} ExpandByNewline(s: string)
    ensures Expand(s, "\n") == s
  {
    if s != [] {
      ExpandByNewline(s[1..]);
      assert s == [s[0]] + s[1..];
    }
  }

  // ---------------------------------------------------------------------------------------------
  // Carriage returns

  const CRLF: string := "\r\n"

  ghost predicate HasCrlf(s: string) {
    exists i :: 0 <= i < |s| - 1 && s[i] == '\r' && s[i + 1] == '\n'
  }

  /** Every newline follows a carriage return. */
  ghost predicate AllCrlf(s: string) {
    forall i :: 0 <= i < |s| && s[i] == '\n' ==> i > 0 && s[i - 1] == '\r'
  }

  lemma CrlfAhead(s: string)
    ensures CRLF <= s <==> |s| >= 2 && s[0] == '\r' && s[1] == '\n'
  {
    if |s| >= 2 { assert s[..2] == [s[0], s[1]]; }
  }

  function Normalize(s: string): string {
    Replace(s, CRLF, "\n")
  }

  lemma {:induction false} NormalizeWithout(s: string)
    requires !HasCrlf(s)
    ensures Normalize(s) == s
  {
    if s != [] {
      CrlfAhead(s);
      assert |s| > 1 ==> !(s[0] == '\r' && s[0 + 1] == '\n');
      forall i | 0 <= i < |s[1..]| - 1
        ensures !(s[1..][i] == '\r' && s[1..][i + 1] == '\n')
      {
        assert !(s[i + 1] == '\r' && s[i + 1 + 1] == '\n');
      }
      NormalizeWithout(s[1..]);
      assert s == [s[0]] + s[1..];
    }
  }

  lemma {:induction false} ExpandOfNormalize(s: string)
    requires AllCrlf(s)
    ensures Expand(Normalize(s), CRLF) == s
    decreases |s|
  {
    if s == [] {
    } else if CRLF <= s {
      assert s[..2] == CRLF;
      var rest := s[2..];
      forall i | 0 <= i < |rest| && rest[i] == '\n'
        ensures i > 0 && rest[i - 1] == '\r'
      {
        assert s[i + 2] == '\n' && s[i + 1] == '\r';
      }
      ExpandOfNormalize(rest);
      assert Normalize(s) == "\n" + Normalize(rest);
      assert s == CRLF + rest;
    } else {
      CrlfAhead(s);
      assert s[0] != '\n';
      var rest := s[1..];
      forall i | 0 <= i < |rest| && rest[i] == '\n'
        ensures i > 0 && rest[i - 1] == '\r'
      {
        assert s[i + 1] == '\n' && s[i] == '\r';
      }
      ExpandOfNormalize(rest);
      assert Normalize(s) == [s[0]] + Normalize(rest);
      assert s == [s[0]] + rest;
    }
  }

  lemma {:induction false} NormalizeOfExpand(s: string)
    ensures Normalize(Expand(s, CRLF)) == s
  {
    if s != [] {
      var rest := Expand(s[1..], CRLF);
      var e := Expand(s, CRLF);
      NormalizeOfExpand(s[1..]);
      if s[0] == '\n' {
        assert e == CRLF + rest && e[2..] == rest;
      } else {
        assert e == [s[0]] + rest && e[1..] == rest;
        ExpandFirst(s[1..]);
        CrlfAhead(e);
      }
      assert s == [s[0]] + s[1..];
    }
  }

  lemma ExpandFirst(s: string)
    ensures Expand(s, CRLF) != [] ==> Expand(s, CRLF)[0] != '\n'
  {
  }

  lemma {:induction false} ExpandAllCrlf(s: string)
    ensures AllCrlf(Expand(s, CRLF))
  {
    if s != [] {
      ExpandAllCrlf(s[1..]);
      ExpandFirst(s[1..]);
      var head := if s[0] == '\n' then CRLF else [s[0]];
      var rest := Expand(s[1..], CRLF);
      forall i | 0 <= i < |head + rest| && (head + rest)[i] == '\n'
        ensures i > 0 && (head + rest)[i - 1] == '\r'
      {
        if i >= |head| { assert rest[i - |head|] == '\n'; }
      }
    }
  }

  lemma {:induction false} NormalizeEnds(s: string)
    ensures (s == [] <==> Normalize(s) == [])
    ensures s != [] ==> (s[|s| - 1] == '\n' <==> Normalize(s)[|Normalize(s)| - 1] == '\n')
    decreases |s|
  {
    if s == [] {
    } else if CRLF <= s {
      assert s[..2] == CRLF;
      NormalizeEnds(s[2..]);
    } else {
      NormalizeEnds(s[1..]);
    }
  }

  // ---------------------------------------------------------------------------------------------
  // `str::lines`: lines end at `'\n'` or at `"\r\n"`, and the last one need not end at all

  function DropCr(line: string): string {
    if line != [] && line[|line| - 1] == '\r' then line[..|line| - 1] else line
  }

  function StrLines(s: string): seq<string> {
    var parts := Split(s);
    var n := |parts| - 1;
    seq(n, i requires 0 <= i < n => DropCr(parts[i])) + if parts[n] == [] then [] else [parts[n]]
  }

  /** Lines written out, each with its own kind of ending. */
  function Written(lines: seq<(string, bool)>): string {
    if lines == [] then [] else lines[0].0 + (if lines[0].1 then "\r\n" else "\n") + Written(lines[1..])
  }

  function Contents(lines: seq<(string, bool)>): (r: seq<string>)
    ensures |r| == |lines|
  {
    seq(|lines|, i requires 0 <= i < |lines| => lines[i].0)
  }

  /** Text reads back as its lines, whatever mixture of endings it has; the last line may have none. */
  lemma {:induction false} StrLinesRead(lines: seq<(string, bool)>, last: string)
    requires forall i :: 0 <= i < |lines| ==>
               '\n' !in lines[i].0 && (lines[i].0 != [] ==> lines[i].0[|lines[i].0| - 1] != '\r')
    requires '\n' !in last
    ensures StrLines(Written(lines) + last) == Contents(lines) + if last == [] then [] else [last]
  {
    if lines == [] {
      assert Written(lines) + last == last && last + [] == last && Contents(lines) == [];
      SplitOneLine(last, []);
    } else {
      var rest := Written(lines[1..]) + last;
      StrLinesRead(lines[1..], last);
      FirstRead(lines[0].0, lines[0].1, rest);
      FirstWritten(lines, last);
      Collections.Associate([lines[0].0], Contents(lines[1..]), if last == [] then [] else [last]);
    }
  }

  lemma FirstWritten(lines: seq<(string, bool)>, last: string)
    requires lines != []
    ensures Written(lines) + last == lines[0].0 + (if lines[0].1 then "\r\n" else "\n") + (Written(lines[1..]) + last)
    ensures Contents(lines) == [lines[0].0] + Contents(lines[1..])
  {
  }

  lemma FirstRead(line: string, crlf: bool, rest: string)
    requires '\n' !in line && (line != [] ==> line[|line| - 1] != '\r')
    ensures StrLines(line + (if crlf then "\r\n" else "\n") + rest) == [line] + StrLines(rest)
  {
    var raw := if crlf then line + "\r" else line;
    var text := line + (if crlf then "\r\n" else "\n") + rest;
    assert text == raw + ("\n" + rest) && ("\n" + rest)[1..] == rest;
    SplitOneLine(raw, "\n" + rest);
    assert DropCr(raw) == line by { if crlf { assert raw[..|raw| - 1] == line; } }
    StrLinesCons(text, raw, rest);
  }

  lemma StrLinesCons(text: string, raw: string, rest: string)
    requires Split(text) == [raw] + Split(rest)
    ensures StrLines(text) == [DropCr(raw)] + StrLines(rest)
  {
  }

  lemma {:induction false} SplitOneLine(line: string, rest: string)
    requires '\n' !in line && (rest != [] ==> rest[0] == '\n')
    ensures Split(line + rest) == if rest == [] then [line] else [line] + Split(rest[1..])
  {
    if line == [] {
      assert line + rest == rest;
    } else {
      assert (line + rest)[1..] == line[1..] + rest;
      SplitOneLine(line[1..], rest);
      assert line == [line[0]] + line[1..];
    }
  }

  /** The first of several lines. */
  lemma FirstStrLine(line: string, rest: string)
    requires '\n' !in line
    ensures StrLines(line + "\n" + rest) == [DropCr(line)] + StrLines(rest)
  {
    SplitOneLine(line, "\n" + rest);
    assert line + "\n" + rest == line + ("\n" + rest) && ("\n" + rest)[1..] == rest;
    StrLinesCons(line + "\n" + rest, line, rest);
  }

  lemma {:induction false} SplitUnbroken(s: string)
    ensures forall i :: 0 <= i < |Split(s)| ==> '\n' !in Split(s)[i]
  {
    if s != [] { SplitUnbroken(s[1..]); }
  }

  /** No line holds a line break. */
  lemma {:induction false} StrLinesUnbroken(s: string)
    ensures forall line :: line in StrLines(s) ==> '\n' !in line
  {
    SplitUnbroken(s);
  }
}
