/** Reading git's NUL-separated diff listings (`parse_numstat` and `parse_name_status`,
    rust/synapse-gui/src/git_fs.rs:1077-1141). */
module GitParsers {
  import Collections
  import opened Wrappers

  const NUL: char := '\0'
  const TAB: char := '\t'
  const U32_LIMIT: nat := 0x1_0000_0000

  // ---------------------------------------------------------------------------------------------
  // Tokens: `split('\0')` without the empty ones

  function Scan(s: string, word: string): seq<string> {
    if s == [] then (if word == [] then [] else [word])
    else if s[0] == NUL then (if word == [] then [] else [word]) + Scan(s[1..], [])
    else Scan(s[1..], word + [s[0]])
  }

  function Tokens(raw: string): seq<string> {
    Scan(raw, [])
  }

  lemma {:induction false} ScanToken(w: string, rest: string, word: string)
    requires NUL !in w
    ensures Scan(w + [NUL] + rest, word) == (if word + w == [] then [] else [word + w]) + Scan(rest, [])
  {
    var s := w + [NUL] + rest;
    if w == [] {
      assert s[1..] == rest && word + w == word;
    } else {
      assert s[1..] == w[1..] + [NUL] + rest;
      assert word + w == word + [w[0]] + w[1..];
      ScanToken(w[1..], rest, word + [w[0]]);
    }
  }

  lemma TokenFirst(w: string, rest: string)
    requires w != [] && NUL !in w
    ensures Tokens(w + [NUL] + rest) == [w] + Tokens(rest)
  {
    ScanToken(w, rest, []);
    assert [] + w == w;
  }

  // ---------------------------------------------------------------------------------------------
  // Numbers

  function Digits(s: string): (r: Option<nat>) {
    if s == [] then Some(0)
    else
      var c := s[|s| - 1];
      match Digits(s[..|s| - 1])
      case None => None
      case Some(v) => if '0' <= c <= '9' then Some(v * 10 + (c as int - '0' as int)) else None
  }

  /** `str::parse::<u32>` */
  function ParseU32(s: string): (r: Option<nat>)
    ensures r.Some? ==> r.value < U32_LIMIT
  {
    var t := if s != [] && s[0] == '+' then s[1..] else s;
    if t == [] then None
    else
      match Digits(t)
      case Some(v) => if v < U32_LIMIT then Some(v) else None
      case None => None
  }

  function Decimal(n: nat): (r: string)
    ensures r != [] && forall i :: 0 <= i < |r| ==> '0' <= r[i] <= '9'
  {
    var last := ('0' as int + n % 10) as char;
    if n < 10 then [last] else Decimal(n / 10) + [last]
  }

  lemma {:induction false} DigitsOfDecimal(n: nat)
    ensures Digits(Decimal(n)) == Some(n)
  {
    var last := ('0' as int + n % 10) as char;
    if n < 10 {
      assert Decimal(n)[..0] == [];
    } else {
      DigitsOfDecimal(n / 10);
      assert Decimal(n)[..|Decimal(n)| - 1] == Decimal(n / 10);
    }
  }

  lemma {:induction false} ParsePrinted(n: nat)
    requires n < 0x1_0000_0000
    ensures ParseU32(Decimal(n)) == Some(n) && Decimal(n) != "-"
  {
    DigitsOfDecimal(n);
    assert '0' <= Decimal(n)[0] <= '9';
  }

  ghost predicate IsZeros(z: string) {
    forall i :: 0 <= i < |z| ==> z[i] == '0'
  }

  /** The number is written in decimal, possibly after a plus sign and zeros. */
  ghost predicate Spells(s: string, v: nat) {
    exists sign, zeros :: SpeltAs(s, sign, zeros, v)
  }

  ghost predicate SpeltAs(s: string, sign: string, zeros: string, v: nat) {
    (sign == "" || sign == "+") && IsZeros(zeros) && s == sign + zeros + Decimal(v)
  }

  lemma {:induction false} DigitsOfPadded(zeros: string, v: nat)
    requires IsZeros(zeros)
    ensures Digits(zeros + Decimal(v)) == Some(v)
  {
    var d := Decimal(v);
    var s := zeros + d;
    if v < 10 {
      DigitsOfZeros(zeros);
      assert s[..|s| - 1] == zeros;
    } else {
      DigitsOfPadded(zeros, v / 10);
      assert s[..|s| - 1] == zeros + Decimal(v / 10);
    }
  }

  lemma {:induction false} DigitsOfZeros(zeros: string)
    requires IsZeros(zeros)
    ensures Digits(zeros) == Some(0)
  {
    if zeros != [] { DigitsOfZeros(zeros[..|zeros| - 1]); }
  }

  lemma {:induction false} PaddedOfDigits(s: string) returns (zeros: string)
    requires s != [] && Digits(s).Some?
    ensures IsZeros(zeros) && s == zeros + Decimal(Digits(s).value)
  {
    var n := |s| - 1;
    if n == 0 {
      zeros := [];
      assert s[..0] == [];
    } else {
      var before := PaddedOfDigits(s[..n]);
      var v := Digits(s[..n]).value;
      assert s == s[..n] + [s[n]];
      if v == 0 {
        zeros := before + "0";
        assert s == zeros + [s[n]];
      } else {
        zeros := before;
        assert Digits(s).value / 10 == v;
        assert s == zeros + (Decimal(v) + [s[n]]);
      }
    }
  }

  /** Exactly what counts as a number: decimal digits within 32 bits, after an optional plus sign. */
  lemma {:induction false} ParseU32Iff(s: string, v: nat)
    ensures ParseU32(s) == Some(v) <==> v < 0x1_0000_0000 && Spells(s, v)
  {
    if ParseU32(s) == Some(v) { NumberIsSpelt(s, v); }
    if Spells(s, v) {
      var sign, zeros :| SpeltAs(s, sign, zeros, v);
      SpeltIsNumber(s, sign, zeros, v);
    }
  }

  function Unsigned(s: string): string {
    if s != [] && s[0] == '+' then s[1..] else s
  }

  lemma NumberIsSpelt(s: string, v: nat)
    requires Unsigned(s) != [] && Digits(Unsigned(s)) == Some(v)
    ensures Spells(s, v)
  {
    var sign := if s != [] && s[0] == '+' then "+" else "";
    var zeros := PaddedOfDigits(Unsigned(s));
    assert s == sign + zeros + Decimal(v);
    assert SpeltAs(s, sign, zeros, v);
  }

  lemma SpeltIsNumber(s: string, sign: string, zeros: string, v: nat)
    requires SpeltAs(s, sign, zeros, v)
    ensures Unsigned(s) != [] && Digits(Unsigned(s)) == Some(v)
  {
    var d := zeros + Decimal(v);
    assert s == sign + d && d[0] != '+';
    if sign == "+" { assert s[1..] == d; } else { assert s == d; }
    DigitsOfPadded(zeros, v);
  }

  // ---------------------------------------------------------------------------------------------
  // numstat

  type Counts = (Option<nat>, Option<nat>, bool)

  /** `numstat_counts` */
  function NumstatCounts(added: string, removed: string): Counts {
    if added == "-" || removed == "-" then (None, None, true)
    else (ParseU32(added), ParseU32(removed), false)
  }

  /** Text before and after the first tab. */
  function Cut(s: string): (string, string) {
    if s == [] then ([], [])
    else if s[0] == TAB then ([], s[1..])
    else var (head, rest) := Cut(s[1..]); ([s[0]] + head, rest)
  }

  lemma {:induction false} CutAt(w: string, rest: string)
    requires TAB !in w
    ensures Cut(w + [TAB] + rest) == (w, rest)
  {
    var s := w + [TAB] + rest;
    if w == [] {
      assert s[1..] == rest;
    } else {
      assert s[1..] == w[1..] + [TAB] + rest;
      CutAt(w[1..], rest);
      assert w == [w[0]] + w[1..];
    }
  }

  /** What the token loop adds to the counts it has. */
  function NumstatFrom(tokens: seq<string>, counts: map<string, Counts>): map<string, Counts>
    decreases |tokens|
  {
    if tokens == [] then counts
    else
      var (added, more) := Cut(tokens[0]);
      var (removed, rest) := Cut(more);
      if rest != [] then NumstatFrom(tokens[1..], counts[rest := NumstatCounts(added, removed)])
      else if |tokens| < 3 then counts
      else NumstatFrom(tokens[3..], counts[tokens[2] := NumstatCounts(added, removed)])
  }

  /** `parse_numstat` */
  method ParseNumstat(raw: string) returns (counts: map<string, Counts>)
    ensures counts == NumstatFrom(Tokens(raw), map[])
  {
    var tokens := Tokens(raw);
    counts := map[];
    var i := 0;
    while i < |tokens|
      invariant 0 <= i <= |tokens|
      invariant NumstatFrom(tokens, map[]) == NumstatFrom(tokens[i..], counts)
      decreases |tokens| - i
    {
      var (added, more) := Cut(tokens[i]);
      var (removed, rest) := Cut(more);
      assert tokens[i..][1..] == tokens[i + 1..];
      if rest == [] {
        if i + 2 >= |tokens| { return; }
        assert tokens[i..][3..] == tokens[i + 3..];
        counts := counts[tokens[i + 2] := NumstatCounts(added, removed)];
        i := i + 3;
      } else {
        counts := counts[rest := NumstatCounts(added, removed)];
        i := i + 1;
      }
    }
    assert tokens[i..] == [];
  }

  /** A dash in either column marks a binary file, whatever the other one says. */
  lemma {:induction false} DashIsBinary(added: string, removed: string, path: string, counts: map<string, Counts>)
    requires TAB !in added && TAB !in removed && path != [] && (added == "-" || removed == "-")
    ensures NumstatFrom([added + [TAB] + (removed + [TAB] + path)], counts) == counts[path := (None, None, true)]
  {
    CutAt(added, removed + [TAB] + path);
    CutAt(removed, path);
    assert [added + [TAB] + (removed + [TAB] + path)][1..] == [];
  }

  /** A line of `git diff --numstat -z`; a rename or copy carries the old path as well. */
  datatype Change = Binary | Lines(added: nat, removed: nat)

  datatype NumRecord = NumRecord(change: Change, path: string, oldPath: Option<string>)

  ghost predicate IsPath(p: string) {
    p != [] && NUL !in p
  }

  ghost predicate IsNumRecord(r: NumRecord) {
    && IsPath(r.path) && (r.oldPath.Some? ==> IsPath(r.oldPath.value))
    && (r.change.Lines? ==> r.change.added < 0x1_0000_0000 && r.change.removed < 0x1_0000_0000)
  }

  function Columns(change: Change): (string, string) {
    match change
    case Binary => ("-", "-")
    case Lines(a, d) => (Decimal(a), Decimal(d))
  }

  function NumToken(r: NumRecord): string {
    Columns(r.change).0 + [TAB] + (Columns(r.change).1 + [TAB] + if r.oldPath.Some? then [] else r.path)
  }

  function PrintNumstat(records: seq<NumRecord>): string {
    if records == [] then []
    else
      var r := records[0];
      NumToken(r) + [NUL] +
      ((if r.oldPath.Some? then r.oldPath.value + [NUL] + (r.path + [NUL] + PrintNumstat(records[1..]))
        else PrintNumstat(records[1..])))
  }

  function Meaning(change: Change): Counts {
    match change
    case Binary => (None, None, true)
    case Lines(a, d) => (Some(a), Some(d), false)
  }

  /** The records by path; of several for one path the last stands. */
  function ByPath(records: seq<NumRecord>, counts: map<string, Counts>): map<string, Counts> {
    if records == [] then counts
    else ByPath(records[1..], counts[records[0].path := Meaning(records[0].change)])
  }

  lemma ColumnsRead(change: Change)
    requires change.Lines? ==> change.added < U32_LIMIT && change.removed < U32_LIMIT
    ensures var (a, d) := Columns(change);
            NumstatCounts(a, d) == Meaning(change) && a != [] && TAB !in a && TAB !in d && NUL !in a && NUL !in d
  {
    if change.Lines? {
      ParsePrinted(change.added);
      ParsePrinted(change.removed);
    }
  }

  lemma {:induction false} NumTokenRead(r: NumRecord)
    requires IsNumRecord(r)
    ensures var (added, more) := Cut(NumToken(r));
            var (removed, rest) := Cut(more);
            && NumstatCounts(added, removed) == Meaning(r.change)
            && rest == (if r.oldPath.Some? then [] else r.path)
            && NumToken(r) != [] && NUL !in NumToken(r)
  {
    ColumnsRead(r.change);
    var (a, d) := Columns(r.change);
    var tail := if r.oldPath.Some? then [] else r.path;
    CutAt(a, d + [TAB] + tail);
    CutAt(d, tail);
  }

  lemma {:induction false} NumstatReads(records: seq<NumRecord>, counts: map<string, Counts>)
    requires forall r :: r in records ==> IsNumRecord(r)
    ensures NumstatFrom(Tokens(PrintNumstat(records)), counts) == ByPath(records, counts)
  {
    if records != [] {
      var r := records[0];
      assert r in records;
      NumTokenRead(r);
      var rest := PrintNumstat(records[1..]);
      var next := counts[r.path := Meaning(r.change)];
      if r.oldPath.Some? {
        TokenFirst(NumToken(r), r.oldPath.value + [NUL] + (r.path + [NUL] + rest));
        TokenFirst(r.oldPath.value, r.path + [NUL] + rest);
        TokenFirst(r.path, rest);
        var tokens := Tokens(PrintNumstat(records));
        assert tokens == [NumToken(r), r.oldPath.value, r.path] + Tokens(rest);
        assert tokens[3..] == Tokens(rest);
      } else {
        TokenFirst(NumToken(r), rest);
        assert Tokens(PrintNumstat(records))[1..] == Tokens(rest);
      }
      NumstatReads(records[1..], next);
    }
  }

  /** Parsing what git prints gives the records back by path, later ones winning. */
  lemma {:induction false} NumstatRoundTrip(records: seq<NumRecord>)
    requires forall r :: r in records ==> IsNumRecord(r)
    ensures NumstatFrom(Tokens(PrintNumstat(records)), map[]) == ByPath(records, map[])
  {
    NumstatReads(records, map[]);
  }

  ghost predicate IsLastFor(records: seq<NumRecord>, path: string, i: int) {
    0 <= i < |records| && records[i].path == path && forall j :: i < j < |records| ==> records[j].path != path
  }

  /** In terms of single paths: the entry of a path is that of the last record naming it. */
  lemma {:induction false} LaterRecordWins(records: seq<NumRecord>, counts: map<string, Counts>, path: string)
    ensures var m := ByPath(records, counts);
            (path in m <==> path in counts || exists i :: 0 <= i < |records| && records[i].path == path)
    ensures forall i :: IsLastFor(records, path, i) ==>
              path in ByPath(records, counts) && ByPath(records, counts)[path] == Meaning(records[i].change)
    ensures (forall i :: 0 <= i < |records| ==> records[i].path != path) && path in counts ==>
              path in ByPath(records, counts) && ByPath(records, counts)[path] == counts[path]
  {
    if records != [] {
      var rest := records[1..];
      var next := counts[records[0].path := Meaning(records[0].change)];
      LaterRecordWins(rest, next, path);
      assert forall i :: 1 <= i < |records| ==> records[i] == rest[i - 1];
      forall i | IsLastFor(records, path, i)
        ensures path in ByPath(records, counts) && ByPath(records, counts)[path] == Meaning(records[i].change)
      {
        if i > 0 { assert IsLastFor(rest, path, i - 1); }
      }
    }
  }

  // ---------------------------------------------------------------------------------------------
  // name-status

  datatype NameRecord = NameRecord(status: string, path: string, oldPath: Option<string>)

  predicate TwoPaths(status: string) {
    status != [] && (status[0] == 'R' || status[0] == 'C')
  }

  /** The records the token loop appends; a record cut short ends it. */
  function NamesFrom(tokens: seq<string>): seq<NameRecord>
    decreases |tokens|
  {
    if tokens == [] then []
    else if TwoPaths(tokens[0]) then
      if |tokens| < 3 then []
      else [NameRecord(tokens[0], tokens[2], Some(tokens[1]))] + NamesFrom(tokens[3..])
    else
      if |tokens| < 2 then []
      else [NameRecord(tokens[0], tokens[1], None)] + NamesFrom(tokens[2..])
  }

  lemma NamesStep(tokens: seq<string>, i: nat)
    requires i < |tokens|
    ensures NamesFrom(tokens[i..]) ==
              if TwoPaths(tokens[i]) then
                if i + 2 >= |tokens| then []
                else [NameRecord(tokens[i], tokens[i + 2], Some(tokens[i + 1]))] + NamesFrom(tokens[i + 3..])
              else
                if i + 1 >= |tokens| then []
                else [NameRecord(tokens[i], tokens[i + 1], None)] + NamesFrom(tokens[i + 2..])
  {
    if i + 2 < |tokens| { assert tokens[i..][3..] == tokens[i + 3..]; }
    if i + 1 < |tokens| { assert tokens[i..][2..] == tokens[i + 2..]; }
  }

  /** `parse_name_status` */
  method ParseNameStatus(raw: string) returns (records: seq<NameRecord>)
    ensures records == NamesFrom(Tokens(raw))
  {
    var tokens := Tokens(raw);
    records := [];
    var i := 0;
    while i < |tokens|
      invariant 0 <= i <= |tokens|
      invariant NamesFrom(tokens) == records + NamesFrom(tokens[i..])
      decreases |tokens| - i
    {
      var status := tokens[i];
      NamesStep(tokens, i);
      if TwoPaths(status) {
        if i + 2 >= |tokens| { return; }
        Collections.Associate(records, [NameRecord(status, tokens[i + 2], Some(tokens[i + 1]))],
                              NamesFrom(tokens[i + 3..]));
        records := records + [NameRecord(status, tokens[i + 2], Some(tokens[i + 1]))];
        i := i + 3;
      } else {
        if i + 1 >= |tokens| { return; }
        Collections.Associate(records, [NameRecord(status, tokens[i + 1], None)], NamesFrom(tokens[i + 2..]));
        records := records + [NameRecord(status, tokens[i + 1], None)];
        i := i + 2;
      }
    }
    assert tokens[i..] == [];
  }

  function PrintNameStatus(records: seq<NameRecord>): string {
    if records == [] then []
    else
      var r := records[0];
      var rest := r.path + [NUL] + PrintNameStatus(records[1..]);
      r.status + [NUL] + (if r.oldPath.Some? then r.oldPath.value + [NUL] + rest else rest)
  }

  ghost predicate IsNameRecord(r: NameRecord) {
    && IsPath(r.status) && IsPath(r.path) && (r.oldPath.Some? ==> IsPath(r.oldPath.value))
    && (r.oldPath.Some? <==> r.status != [] && (r.status[0] == 'R' || r.status[0] == 'C'))
  }

  /** Parsing what git prints gives the same records back, renames and copies with both paths. */
  lemma {:induction false} NameStatusRoundTrip(records: seq<NameRecord>)
    requires forall r :: r in records ==> IsNameRecord(r)
    ensures NamesFrom(Tokens(PrintNameStatus(records))) == records
  {
    if records != [] {
      var r := records[0];
      assert r in records && IsNameRecord(r);
      var rest := PrintNameStatus(records[1..]);
      NameStatusRoundTrip(records[1..]);
      TokenFirst(r.path, rest);
      var tokens := Tokens(PrintNameStatus(records));
      if r.oldPath.Some? {
        TokenFirst(r.status, r.oldPath.value + [NUL] + (r.path + [NUL] + rest));
        TokenFirst(r.oldPath.value, r.path + [NUL] + rest);
        assert tokens == [r.status, r.oldPath.value, r.path] + Tokens(rest);
        assert tokens[3..] == Tokens(rest);
      } else {
        TokenFirst(r.status, r.path + [NUL] + rest);
        assert tokens == [r.status, r.path] + Tokens(rest);
        assert tokens[2..] == Tokens(rest);
      }
      assert records == [r] + records[1..];
    }
  }
}
