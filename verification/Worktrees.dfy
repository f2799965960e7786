/** The blocks of `git worktree list --porcelain` (`read_worktrees`, rust/synapse-gui/src/git_fs.rs:1172-1212) and
    the printer they come from. */
module Worktrees {
  import opened Lines
  import opened Wrappers

  // ---------------------------------------------------------------------------------------------
  // `str::trim`

  /** The characters with the Unicode property White_Space. */
  predicate IsSpace(c: char) {
    var n := c as int;
    9 <= n <= 13 || n == 0x20 || n == 0x85 || n == 0xA0 || n == 0x1680 || 0x2000 <= n <= 0x200A ||
    n == 0x2028 || n == 0x2029 || n == 0x202F || n == 0x205F || n == 0x3000
  }

  function TrimEnd(s: string): string {
    if s != [] && IsSpace(s[|s| - 1]) then TrimEnd(s[..|s| - 1]) else s
  }

  function TrimStart(s: string): string {
    if s != [] && IsSpace(s[0]) then TrimStart(s[1..]) else s
  }

  function Trim(s: string): string {
    TrimStart(TrimEnd(s))
  }

  // ---------------------------------------------------------------------------------------------
  // The parser

  datatype GitWorktree = GitWorktree(path: string, headSha: string, branch: Option<string>, isMain: bool)

  datatype Block = Block(path: Option<string>, headSha: string, branch: Option<string>)

  const WORKTREE: string := "worktree "
  const HEAD: string := "HEAD "
  const BRANCH: string := "branch "
  const HEADS: string := "refs/heads/"

  const NO_LINES: Block := Block(None, "", None)

  function BranchName(value: string): string {
    if HEADS <= value then value[|HEADS|..] else value
  }

  /** What one line adds to its block. */
  function Enter(b: Block, line: string): Block {
    if WORKTREE <= line then b.(path := Some(Trim(line[|WORKTREE|..])))
    else if HEAD <= line then b.(headSha := Trim(line[|HEAD|..]))
    else if BRANCH <= line then b.(branch := Some(BranchName(Trim(line[|BRANCH|..]))))
    else b
  }

  /** A block without a path is dropped; the first one listed is the main worktree. */
  function Flush(current: Option<Block>, worktrees: seq<GitWorktree>): seq<GitWorktree> {
    match current
    case Some(Block(Some(path), head, branch)) => worktrees + [GitWorktree(path, head, branch, worktrees == [])]
    case _ => worktrees
  }

  function BlocksFrom(lines: seq<string>, current: Option<Block>, worktrees: seq<GitWorktree>): seq<GitWorktree>
    decreases |lines|
  {
    if lines == [] then Flush(current, worktrees)
    else if Trim(lines[0]) == [] then BlocksFrom(lines[1..], None, Flush(current, worktrees))
    else BlocksFrom(lines[1..], Some(Enter(if current.Some? then current.value else NO_LINES, lines[0])), worktrees)
  }

  /** `read_worktrees` on git's output */
  method ReadWorktrees(raw: string) returns (worktrees: seq<GitWorktree>)
    ensures worktrees == BlocksFrom(StrLines(raw), None, [])
  {
    var lines := StrLines(raw);
    worktrees := [];
    var current := None;
    for i := 0 to |lines|
      invariant BlocksFrom(lines, None, []) == BlocksFrom(lines[i..], current, worktrees)
    {
      assert lines[i..][0] == lines[i] && lines[i..][1..] == lines[i + 1..];
      if Trim(lines[i]) == [] {
        worktrees := Flush(current, worktrees);
        current := None;
      } else {
        current := Some(Enter(if current.Some? then current.value else NO_LINES, lines[i]));
      }
    }
    worktrees := Flush(current, worktrees);
  }

  /** A branch value outside `refs/heads/` is kept as it is, a path or commit is trimmed, other lines say nothing. */
  lemma {:induction false} LinesSay(b: Block, value: string)
    ensures !("refs/heads/" <= Trim(value)) ==> Enter(b, "branch " + value) == b.(branch := Some(Trim(value)))
    ensures Enter(b, "worktree " + value) == b.(path := Some(Trim(value)))
    ensures Enter(b, "HEAD " + value) == b.(headSha := Trim(value))
    ensures Enter(b, "bare") == b && Enter(b, "locked " + value) == b && Enter(b, "prunable " + value) == b
  {
    assert ("branch " + value)[7..] == value && ("branch " + value)[0] == 'b';
    assert ("worktree " + value)[9..] == value;
    assert ("HEAD " + value)[5..] == value && ("HEAD " + value)[0] == 'H';
    assert "bare"[1] == 'a' && ("locked " + value)[0] == 'l' && ("prunable " + value)[0] == 'p';
    assert WORKTREE[0] == 'w' && HEAD[0] == 'H' && BRANCH[0] == 'b' && BRANCH[1] == 'r';
  }

  /** A block that names no path lists nothing. */
  lemma {:induction false} NoPathNoWorktree(lines: seq<string>, current: Option<Block>, worktrees: seq<GitWorktree>)
    requires (current.Some? ==> current.value.path.None?) && forall line :: line in lines ==> !("worktree " <= line)
    ensures BlocksFrom(lines, current, worktrees) == worktrees
    decreases |lines|
  {
    if lines != [] {
      var b := if current.Some? then current.value else NO_LINES;
      assert lines[0] in lines && forall line :: line in lines[1..] ==> line in lines;
      NoPathNoWorktree(lines[1..], if Trim(lines[0]) == [] then None else Some(Enter(b, lines[0])), worktrees);
    }
  }

  ghost predicate FirstIsMain(worktrees: seq<GitWorktree>) {
    forall i :: 0 <= i < |worktrees| ==> (worktrees[i].isMain <==> i == 0)
  }

  /** Whatever git prints, exactly the first worktree listed is the main one. */
  lemma {:induction false} OneMain(lines: seq<string>, current: Option<Block>, worktrees: seq<GitWorktree>)
    requires FirstIsMain(worktrees)
    ensures FirstIsMain(BlocksFrom(lines, current, worktrees))
    decreases |lines|
  {
    if lines != [] {
      if Trim(lines[0]) == [] {
        OneMain(lines[1..], None, Flush(current, worktrees));
      } else {
        OneMain(lines[1..], Some(Enter(if current.Some? then current.value else NO_LINES, lines[0])), worktrees);
      }
    }
  }

  // ---------------------------------------------------------------------------------------------
  // The printer

  datatype Record = Record(path: string, headSha: string, branch: Option<string>)

  predicate OneLine(r: Record) {
    '\n' !in r.path && '\n' !in r.headSha && (r.branch.Some? ==> '\n' !in r.branch.value)
  }

  function LastLine(r: Record): string {
    if r.branch.Some? then "branch " + ("refs/heads/" + r.branch.value) else "detached"
  }

  /** Git's layout: three lines and an empty one for each worktree. */
  function Print(records: seq<Record>): string {
    if records == [] then []
    else
      var r := records[0];
      "worktree " + r.path + "\n" +
      ("HEAD " + r.headSha + "\n" + (LastLine(r) + "\n" + ([] + "\n" + Print(records[1..]))))
  }

  /** What is left of a record: surrounding white space is lost, and before a branch name it is kept. */
  function Cleaned(r: Record, isMain: bool): GitWorktree {
    GitWorktree(Trim(r.path), Trim(r.headSha), if r.branch.Some? then Some(TrimEnd(r.branch.value)) else None, isMain)
  }

  function AllCleaned(records: seq<Record>, worktrees: seq<GitWorktree>): seq<GitWorktree> {
    if records == [] then worktrees
    else AllCleaned(records[1..], worktrees + [Cleaned(records[0], worktrees == [])])
  }

  lemma {:induction false} TrimEndAfter(p: string, s: string)
    requires p != [] && !IsSpace(p[|p| - 1])
    ensures TrimEnd(p + s) == p + TrimEnd(s)
  {
    if s == [] {
      assert p + s == p;
    } else {
      assert (p + s)[..|p + s| - 1] == p + s[..|s| - 1];
      if IsSpace(s[|s| - 1]) { TrimEndAfter(p, s[..|s| - 1]); }
    }
  }

  lemma TrimDropsCr(s: string)
    ensures TrimEnd(DropCr(s)) == TrimEnd(s)
  {
  }

  lemma {:induction false} NotBlank(s: string, c: char, rest: string)
    requires s == [c] + rest && !IsSpace(c)
    ensures Trim(s) != []
  {
    TrimEndAfter([c], rest);
  }

  lemma DropCrAfter(p: string, s: string)
    requires p != [] && p[|p| - 1] != '\r'
    ensures DropCr(p + s) == p + DropCr(s)
  {
    if s != [] {
      assert (p + s)[..|p + s| - 1] == p + s[..|s| - 1];
    } else {
      assert p + s == p;
    }
  }

  lemma PathLine(b: Block, path: string)
    ensures var line := DropCr(WORKTREE + path);
            Trim(line) != [] && Enter(b, line) == b.(path := Some(Trim(path)))
  {
    DropCrAfter(WORKTREE, path);
    var line := WORKTREE + DropCr(path);
    NotBlank(line, 'w', line[1..]);
    assert line[|WORKTREE|..] == DropCr(path);
    TrimDropsCr(path);
  }

  lemma HeadLine(b: Block, head: string)
    ensures var line := DropCr(HEAD + head);
            Trim(line) != [] && Enter(b, line) == b.(headSha := Trim(head))
  {
    DropCrAfter(HEAD, head);
    var line := HEAD + DropCr(head);
    NotBlank(line, 'H', line[1..]);
    assert line[|HEAD|..] == DropCr(head);
    assert line[0] == 'H' && WORKTREE[0] == 'w';
    TrimDropsCr(head);
  }

  lemma BranchLine(b: Block, branch: string)
    ensures var line := DropCr(BRANCH + (HEADS + branch));
            Trim(line) != [] && Enter(b, line) == b.(branch := Some(TrimEnd(branch)))
  {
    DropCrAfter(HEADS, branch);
    DropCrAfter(BRANCH, HEADS + branch);
    BranchEntered(b, HEADS + DropCr(branch));
    BranchNameRead(branch);
  }

  lemma BranchEntered(b: Block, value: string)
    ensures Trim(BRANCH + value) != [] && Enter(b, BRANCH + value) == b.(branch := Some(BranchName(Trim(value))))
  {
    var line := BRANCH + value;
    NotBlank(line, 'b', line[1..]);
    assert line[|BRANCH|..] == value;
    assert line[0] == 'b' && WORKTREE[0] == 'w' && HEAD[0] == 'H';
  }

  lemma BranchNameRead(branch: string)
    ensures BranchName(Trim(HEADS + DropCr(branch))) == TrimEnd(branch)
  {
    TrimDropsCr(branch);
    TrimNamed(DropCr(branch));
    NameOf(TrimEnd(branch));
  }

  lemma TrimNamed(s: string)
    ensures Trim(HEADS + s) == HEADS + TrimEnd(s)
  {
    TrimEndAfter(HEADS, s);
    assert (HEADS + TrimEnd(s))[0] == HEADS[0] == 'r';
  }

  lemma NameOf(name: string)
    ensures BranchName(HEADS + name) == name
  {
  }

  lemma DetachedLine(b: Block)
    ensures Trim(DropCr("detached")) != [] && Enter(b, DropCr("detached")) == b
  {
    NotBlank("detached", 'd', "etached");
    assert "detached"[0] == 'd' && WORKTREE[0] == 'w' && HEAD[0] == 'H' && BRANCH[0] == 'b';
  }

  /** Parsing what git prints gives every worktree back in order, cleaned of surrounding white space. */
  lemma {:induction false} WorktreesRead(records: seq<Record>, worktrees: seq<GitWorktree>)
    requires forall r :: r in records ==> OneLine(r)
    ensures BlocksFrom(StrLines(Print(records)), None, worktrees) == AllCleaned(records, worktrees)
  {
    if records != [] {
      var r := records[0];
      assert r in records;
      var next := Flush(Some(Block(Some(Trim(r.path)), Trim(r.headSha), Cleaned(r, false).branch)), worktrees);
      RecordLines(r, Print(records[1..]));
      RecordRead(r, StrLines(Print(records[1..])), worktrees);
      WorktreesRead(records[1..], next);
    }
  }

  function RecordAsLines(r: Record): seq<string> {
    [DropCr(WORKTREE + r.path), DropCr(HEAD + r.headSha), DropCr(LastLine(r)), []]
  }

  lemma FourLines(a: string, b: string, c: string, rest: seq<string>)
    ensures [a] + ([b] + ([c] + ([[]] + rest))) == [a, b, c, []] + rest
    ensures ([a, b, c, []] + rest)[1..] == [b, c, []] + rest && ([b, c, []] + rest)[1..] == [c, []] + rest
    ensures ([c, []] + rest)[1..] == [[]] + rest && ([[]] + rest)[1..] == rest
  {
  }

  lemma RecordLines(r: Record, rest: string)
    requires OneLine(r)
    ensures var more := LastLine(r) + "\n" + ([] + "\n" + rest);
            StrLines(WORKTREE + r.path + "\n" + (HEAD + r.headSha + "\n" + more)) ==
            RecordAsLines(r) + StrLines(rest)
  {
    FirstStrLine(WORKTREE + r.path, HEAD + r.headSha + "\n" + (LastLine(r) + "\n" + ([] + "\n" + rest)));
    FirstStrLine(HEAD + r.headSha, LastLine(r) + "\n" + ([] + "\n" + rest));
    FirstStrLine(LastLine(r), [] + "\n" + rest);
    FirstStrLine([], rest);
    FourLines(DropCr(WORKTREE + r.path), DropCr(HEAD + r.headSha), DropCr(LastLine(r)), StrLines(rest));
  }

  lemma RecordRead(r: Record, rest: seq<string>, worktrees: seq<GitWorktree>)
    ensures BlocksFrom(RecordAsLines(r) + rest, None, worktrees) ==
            BlocksFrom(rest, None, worktrees + [Cleaned(r, worktrees == [])])
  {
    var lines := RecordAsLines(r);
    var one := NO_LINES.(path := Some(Trim(r.path)));
    var two := one.(headSha := Trim(r.headSha));
    var three := two.(branch := Cleaned(r, false).branch);
    PathLine(NO_LINES, r.path);
    HeadLine(one, r.headSha);
    if r.branch.Some? { BranchLine(two, r.branch.value); } else { DetachedLine(two); }
    FourSteps(lines[0], lines[1], lines[2], rest, one, two, three, worktrees);
    assert lines == [lines[0], lines[1], lines[2], []];
  }

  lemma FourSteps(a: string, b: string, c: string, rest: seq<string>, one: Block, two: Block, three: Block,
                  worktrees: seq<GitWorktree>)
    requires Trim(a) != [] && Trim(b) != [] && Trim(c) != []
    requires one == Enter(NO_LINES, a) && two == Enter(one, b) && three == Enter(two, c)
    ensures BlocksFrom([a, b, c, []] + rest, None, worktrees) == BlocksFrom(rest, None, Flush(Some(three), worktrees))
  {
    FourLines(a, b, c, rest);
    LineStep([a, b, c, []] + rest, None, worktrees);
    LineStep([b, c, []] + rest, Some(one), worktrees);
    LineStep([c, []] + rest, Some(two), worktrees);
    assert BlocksFrom([[]] + rest, Some(three), worktrees) == BlocksFrom(rest, None, Flush(Some(three), worktrees));
  }

  lemma LineStep(lines: seq<string>, current: Option<Block>, worktrees: seq<GitWorktree>)
    requires lines != [] && Trim(lines[0]) != []
    ensures BlocksFrom(lines, current, worktrees) ==
            BlocksFrom(lines[1..], Some(Enter(if current.Some? then current.value else NO_LINES, lines[0])), worktrees)
  {
  }

  // ---------------------------------------------------------------------------------------------
  // What comes back

  /** The worktrees as they are, the first of them the main one. */
  function Intact(records: seq<Record>, worktrees: seq<GitWorktree>): seq<GitWorktree> {
    if records == [] then worktrees
    else
      var r := records[0];
      Intact(records[1..], worktrees + [GitWorktree(r.path, r.headSha, r.branch, worktrees == [])])
  }

  /** Unicode's white space. */
  const WHITE: set<int> := {0x09, 0x0A, 0x0B, 0x0C, 0x0D, 0x20, 0x85, 0xA0, 0x1680, 0x2000, 0x2001, 0x2002, 0x2003,
                            0x2004, 0x2005, 0x2006, 0x2007, 0x2008, 0x2009, 0x200A, 0x2028, 0x2029, 0x202F, 0x205F,
                            0x3000}

  predicate StartsSolid(s: string) {
    s != [] ==> s[0] as int !in WHITE
  }

  predicate EndsSolid(s: string) {
    s != [] ==> s[|s| - 1] as int !in WHITE
  }

  /** No white space where the parser trims, and no line break anywhere. */
  predicate Survives(r: Record) {
    && OneLine(r)
    && StartsSolid(r.path) && EndsSolid(r.path) && StartsSolid(r.headSha) && EndsSolid(r.headSha)
    && (r.branch.Some? ==> EndsSolid(r.branch.value))
  }

  /** Parsing git's output for any worktrees gives them back unchanged if and only if each of them survives. */
  lemma {:induction false} WorktreesSurviveIff(records: seq<Record>)
    ensures BlocksFrom(StrLines(Print(records)), None, []) == Intact(records, []) <==>
            forall r :: r in records ==> Survives(r)
  {
    var read := BlocksFrom(StrLines(Print(records)), None, []);
    if read == Intact(records, []) {
      StrLinesUnbroken(Print(records));
      BlocksUnbroken(StrLines(Print(records)), None, []);
      IntactOneLine(records, []);
    }
    if forall r :: r in records ==> OneLine(r) {
      WorktreesRead(records, []);
      CleanedIntact(records, []);
    }
  }

  ghost predicate Unbroken(t: GitWorktree) {
    '\n' !in t.path && '\n' !in t.headSha && (t.branch.Some? ==> '\n' !in t.branch.value)
  }

  ghost predicate BlockUnbroken(b: Block) {
    && (b.path.Some? ==> '\n' !in b.path.value) && '\n' !in b.headSha
    && (b.branch.Some? ==> '\n' !in b.branch.value)
  }

  lemma {:induction false} TrimUnbroken(s: string)
    requires '\n' !in s
    ensures '\n' !in Trim(s)
  {
    TrimEndWithin(s);
    TrimStartWithin(TrimEnd(s));
  }

  lemma {:induction false} TrimEndWithin(s: string)
    ensures forall c :: c in TrimEnd(s) ==> c in s
  {
    if s != [] && IsSpace(s[|s| - 1]) { TrimEndWithin(s[..|s| - 1]); }
  }

  lemma {:induction false} TrimStartWithin(s: string)
    ensures forall c :: c in TrimStart(s) ==> c in s
  {
    if s != [] && IsSpace(s[0]) { TrimStartWithin(s[1..]); }
  }

  lemma EnterUnbroken(b: Block, line: string)
    requires BlockUnbroken(b) && '\n' !in line
    ensures BlockUnbroken(Enter(b, line))
  {
    if WORKTREE <= line {
      TrimUnbroken(line[|WORKTREE|..]);
    } else if HEAD <= line {
      TrimUnbroken(line[|HEAD|..]);
    } else if BRANCH <= line {
      TrimUnbroken(line[|BRANCH|..]);
    }
  }

  /** Nothing the parser returns holds a line break, because no line does. */
  lemma {:induction false} BlocksUnbroken(lines: seq<string>, current: Option<Block>, worktrees: seq<GitWorktree>)
    requires forall line :: line in lines ==> '\n' !in line
    requires current.Some? ==> BlockUnbroken(current.value)
    requires forall t :: t in worktrees ==> Unbroken(t)
    ensures forall t :: t in BlocksFrom(lines, current, worktrees) ==> Unbroken(t)
    decreases |lines|
  {
    if lines != [] {
      assert lines[0] in lines;
      var b := if current.Some? then current.value else NO_LINES;
      if Trim(lines[0]) == [] {
        BlocksUnbroken(lines[1..], None, Flush(current, worktrees));
      } else {
        EnterUnbroken(b, lines[0]);
        BlocksUnbroken(lines[1..], Some(Enter(b, lines[0])), worktrees);
      }
    }
  }

  lemma {:induction false} IntactOneLine(records: seq<Record>, worktrees: seq<GitWorktree>)
    requires forall t :: t in Intact(records, worktrees) ==> Unbroken(t)
    ensures forall r :: r in records ==> OneLine(r)
  {
    if records != [] {
      var r := records[0];
      var t := GitWorktree(r.path, r.headSha, r.branch, worktrees == []);
      IntactKeeps(records[1..], worktrees + [t]);
      assert (worktrees + [t])[|worktrees|] == t;
      assert t in Intact(records, worktrees);
      IntactOneLine(records[1..], worktrees + [t]);
    }
  }

  lemma {:induction false} IntactKeeps(records: seq<Record>, worktrees: seq<GitWorktree>)
    ensures worktrees <= Intact(records, worktrees)
  {
    if records != [] {
      var r := records[0];
      IntactKeeps(records[1..], worktrees + [GitWorktree(r.path, r.headSha, r.branch, worktrees == [])]);
    }
  }

  lemma {:induction false} CleanedKeeps(records: seq<Record>, worktrees: seq<GitWorktree>)
    ensures worktrees <= AllCleaned(records, worktrees)
  {
    if records != [] { CleanedKeeps(records[1..], worktrees + [Cleaned(records[0], worktrees == [])]); }
  }

  /** Cleaning changes nothing exactly when it changes no record. */
  lemma {:induction false} CleanedIntact(records: seq<Record>, worktrees: seq<GitWorktree>)
    requires forall r :: r in records ==> OneLine(r)
    ensures AllCleaned(records, worktrees) == Intact(records, worktrees) <==> forall r :: r in records ==> Survives(r)
  {
    if records != [] {
      var r, rest := records[0], records[1..];
      assert r in records && forall x :: x in records <==> x == r || x in rest;
      var kept := GitWorktree(r.path, r.headSha, r.branch, worktrees == []);
      var cleaned := Cleaned(r, worktrees == []);
      CleanedSame(r, worktrees == []);
      if cleaned == kept {
        CleanedIntact(rest, worktrees + [kept]);
      } else {
        CleanedKeeps(rest, worktrees + [cleaned]);
        IntactKeeps(rest, worktrees + [kept]);
        assert AllCleaned(records, worktrees)[|worktrees|] == cleaned;
        assert Intact(records, worktrees)[|worktrees|] == kept;
      }
    }
  }

  lemma CleanedSame(r: Record, isMain: bool)
    requires OneLine(r)
    ensures Cleaned(r, isMain) == GitWorktree(r.path, r.headSha, r.branch, isMain) <==> Survives(r)
  {
    TrimSame(r.path);
    TrimSame(r.headSha);
    if r.branch.Some? { TrimEndShrinks(r.branch.value); }
  }

  /** A path with a line break is cut at it, and one that ends in a space loses it. */
  lemma {:induction false} BrokenPaths()
    ensures BlocksFrom(StrLines(Print([Record("a\nb", "h", None)])), None, []) == [GitWorktree("a", "h", None, true)]
    ensures BlocksFrom(StrLines(Print([Record("a ", "h", None)])), None, []) == [GitWorktree("a", "h", None, true)]
  {
    BrokenPath();
    SpacedPath();
  }

  lemma SpacedPath()
    ensures BlocksFrom(StrLines(Print([Record("a ", "h", None)])), None, []) == [GitWorktree("a", "h", None, true)]
  {
    var r := Record("a ", "h", None);
    WorktreesRead([r], []);
    assert [r][1..] == [];
    assert TrimEnd("a ") == "a" by { assert "a "[..1] == "a"; }
    assert Cleaned(r, true) == GitWorktree("a", "h", None, true);
  }

  lemma BrokenPath()
    ensures BlocksFrom(StrLines(Print([Record("a\nb", "h", None)])), None, []) == [GitWorktree("a", "h", None, true)]
  {
    BrokenLines();
    var one := NO_LINES.(path := Some("a"));
    PathLine(NO_LINES, "a");
    StrayLine(one);
    HeadLine(one, "h");
    DetachedLine(one.(headSha := "h"));
    FirstStep(DropCr(WORKTREE + "a"), "b", DropCr(HEAD + "h"), "detached", one, one.(headSha := "h"));
  }

  lemma FirstStep(path: string, a: string, b: string, c: string, one: Block, two: Block)
    requires Trim(path) != [] && Enter(NO_LINES, path) == one
    requires Trim(a) != [] && Trim(b) != [] && Trim(c) != []
    requires Enter(one, a) == one && Enter(one, b) == two && Enter(two, c) == two
    ensures BlocksFrom([path] + ([a] + ([b] + ([c] + ([[]] + [])))), None, []) == Flush(Some(two), [])
  {
    LineStep([path] + ([a] + ([b] + ([c] + ([[]] + [])))), None, []);
    ThreeSteps(a, b, c, one, two);
  }

  lemma ThreeSteps(a: string, b: string, c: string, one: Block, two: Block)
    requires Trim(a) != [] && Trim(b) != [] && Trim(c) != []
    requires Enter(one, a) == one && Enter(one, b) == two && Enter(two, c) == two
    ensures BlocksFrom([a] + ([b] + ([c] + ([[]] + []))), Some(one), []) == Flush(Some(two), [])
  {
    LineStep([a] + ([b] + ([c] + ([[]] + []))), Some(one), []);
    LineStep([b] + ([c] + ([[]] + [])), Some(one), []);
    LineStep([c] + ([[]] + []), Some(two), []);
    var blank: seq<string> := [[]];
    assert blank + [] == blank && blank[1..] == [] && Trim(blank[0]) == [];
    assert BlocksFrom(blank, Some(two), []) == BlocksFrom([], None, Flush(Some(two), []));
  }

  lemma StrayLine(b: Block)
    ensures Trim("b") != [] && Enter(b, "b") == b
  {
    assert "b"[0] == 'b' && WORKTREE[0] == 'w' && HEAD[0] == 'H';
  }

  lemma BrokenLines()
    ensures StrLines(Print([Record("a\nb", "h", None)])) ==
            [DropCr(WORKTREE + "a")] + (["b"] + ([DropCr(HEAD + "h")] + (["detached"] + ([[]] + []))))
  {
    var r := Record("a\nb", "h", None);
    var tail := HEAD + "h" + "\n" + ("detached" + "\n" + ([] + "\n" + []));
    assert [r][1..] == [];
    assert WORKTREE + "a\nb" + "\n" + tail == WORKTREE + "a" + "\n" + ("b" + "\n" + tail);
    assert Print([r]) == WORKTREE + "a" + "\n" + ("b" + "\n" + tail);
    FirstStrLine(WORKTREE + "a", "b" + "\n" + tail);
    FirstStrLine("b", tail);
    TailRead(tail);
  }

  lemma TailRead(tail: string)
    requires tail == HEAD + "h" + "\n" + ("detached" + "\n" + ([] + "\n" + []))
    ensures StrLines(tail) == [DropCr(HEAD + "h")] + (["detached"] + ([[]] + []))
  {
    FirstStrLine(HEAD + "h", "detached" + "\n" + ([] + "\n" + []));
    FirstStrLine("detached", [] + "\n" + []);
    FirstStrLine([], []);
    assert StrLines([]) == [] && DropCr([]) == [] && DropCr("detached") == "detached";
  }

  lemma {:induction false} TrimEndShrinks(s: string)
    ensures |TrimEnd(s)| <= |s| && (|TrimEnd(s)| == |s| ==> TrimEnd(s) == s)
    ensures (TrimEnd(s) == s <==> s == [] || !IsSpace(s[|s| - 1]))
  {
    if s != [] && IsSpace(s[|s| - 1]) { TrimEndShrinks(s[..|s| - 1]); }
  }

  lemma {:induction false} TrimStartShrinks(s: string)
    ensures |TrimStart(s)| <= |s| && (|TrimStart(s)| == |s| ==> TrimStart(s) == s)
    ensures (TrimStart(s) == s <==> s == [] || !IsSpace(s[0]))
  {
    if s != [] && IsSpace(s[0]) { TrimStartShrinks(s[1..]); }
  }

  lemma TrimSame(s: string)
    ensures Trim(s) == s <==> s == [] || (!IsSpace(s[0]) && !IsSpace(s[|s| - 1]))
  {
    TrimEndShrinks(s);
    TrimStartShrinks(TrimEnd(s));
  }
}
