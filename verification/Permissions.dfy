/** `PermissionCoordinator` (src/synapse/acp/permissions.py): its registry and policy table, one method per lock
    section, and the pure parts: action keys and the decoding of a client's answer. */
module Permissions {
  import Collections
  import opened Wrappers

  // ---------------------------------------------------------------------------------------------
  // Action keys

  /** What `str.split()` splits at. */
  predicate IsSpace(c: char) {
    var n := c as int;
    || 0x09 <= n <= 0x0D || 0x1C <= n <= 0x20 || n == 0x85 || n == 0xA0 || n == 0x1680
    || 0x2000 <= n <= 0x200A || n == 0x2028 || n == 0x2029 || n == 0x202F || n == 0x205F || n == 0x3000
  }

  /** `str.casefold()` writes each character as one or more others; the table is not spelt out. */
  type Folding = char -> string

  /** Folding keeps white space apart from everything else, and folding twice is folding once. */
  ghost predicate IsFolding(fold: Folding) {
    forall c :: if IsSpace(c) then fold(c) == [c] else IsWord(fold(c)) && Folded(fold, fold(c))
  }

  /** For ASCII text. */
  function AsciiFold(c: char): string {
    [if 'A' <= c <= 'Z' then (c as int + 32) as char else c]
  }

  function Casefold(fold: Folding, s: string): string {
    if s == [] then [] else fold(s[0]) + Casefold(fold, s[1..])
  }

  ghost predicate IsWord(w: string) {
    w != [] && forall i :: 0 <= i < |w| ==> !IsSpace(w[i])
  }

  /** `split()`; `word` is the part of a word already read. */
  function Split(s: string, word: string): (words: seq<string>)
    requires forall i :: 0 <= i < |word| ==> !IsSpace(word[i])
    ensures forall w :: w in words ==> IsWord(w)
  {
    if s == [] then (if word == [] then [] else [word])
    else if IsSpace(s[0]) then (if word == [] then [] else [word]) + Split(s[1..], [])
    else Split(s[1..], word + [s[0]])
  }

  function Join(words: seq<string>): string {
    if words == [] then "" else if |words| == 1 then words[0] else words[0] + " " + Join(words[1..])
  }

  /** `_policy_key`; stripping first changes nothing that splitting does not drop. */
  function PolicyKey(fold: Folding, action: string): string {
    Join(Split(Casefold(fold, action), []))
  }

  lemma {:induction false} SplitReadsWord(w: string, rest: string, word: string)
    requires forall i :: 0 <= i < |word| ==> !IsSpace(word[i])
    requires forall i :: 0 <= i < |w| ==> !IsSpace(w[i])
    ensures Split(w + rest, word) == Split(rest, word + w)
  {
    if w == [] {
      assert w + rest == rest && word + w == word;
    } else {
      assert (w + rest)[1..] == w[1..] + rest;
      assert word + w == word + [w[0]] + w[1..];
      SplitReadsWord(w[1..], rest, word + [w[0]]);
    }
  }

  lemma {:induction false} SplitOfJoin(words: seq<string>)
    requires forall w :: w in words ==> IsWord(w)
    ensures Split(Join(words), []) == words
  {
    if words != [] {
      var w, rest := words[0], words[1..];
      assert w in words && IsWord(w);
      if rest == [] {
        assert w + [] == w && [] + w == w;
        SplitReadsWord(w, [], []);
      } else {
        assert Join(words) == w + (" " + Join(rest));
        assert [] + w == w;
        SplitReadsWord(w, " " + Join(rest), []);
        assert (" " + Join(rest))[1..] == Join(rest);
        SplitOfJoin(rest);
      }
    }
  }

  /** Two actions share a key exactly when they have the same words up to case, however they are spaced. */
  lemma {:induction false} PolicyKeySameWords(fold: Folding, a: string, b: string)
    ensures PolicyKey(fold, a) == PolicyKey(fold, b) <==> Split(Casefold(fold, a), []) == Split(Casefold(fold, b), [])
  {
    SplitOfJoin(Split(Casefold(fold, a), []));
    SplitOfJoin(Split(Casefold(fold, b), []));
  }

  /** The white space of Unicode and the separators U+001C to U+001F. */
  const WHITE: set<int> := {0x09, 0x0A, 0x0B, 0x0C, 0x0D, 0x1C, 0x1D, 0x1E, 0x1F, 0x20, 0x85, 0xA0, 0x1680, 0x2000,
                            0x2001, 0x2002, 0x2003, 0x2004, 0x2005, 0x2006, 0x2007, 0x2008, 0x2009, 0x200A, 0x2028,
                            0x2029, 0x202F, 0x205F, 0x3000}

  ghost predicate IsBlank(s: string) {
    forall i :: 0 <= i < |s| ==> s[i] as int in WHITE
  }

  ghost predicate IsSolid(s: string) {
    s != [] && forall i :: 0 <= i < |s| ==> s[i] as int !in WHITE
  }

  lemma WhiteIff(c: char)
    ensures IsSpace(c) <==> c as int in WHITE
  {
  }

  lemma BlankIff(s: string)
    ensures IsBlank(s) <==> forall i :: 0 <= i < |s| ==> IsSpace(s[i])
    ensures IsSolid(s) <==> IsWord(s)
  {
    forall i | 0 <= i < |s|
      ensures IsSpace(s[i]) <==> s[i] as int in WHITE
    {
      WhiteIff(s[i]);
    }
  }

  /** Words written out, each with white space of any kind and length behind it. */
  function Spaced(words: seq<(string, string)>): string {
    if words == [] then [] else words[0].0 + words[0].1 + Spaced(words[1..])
  }

  function WordsOf(words: seq<(string, string)>): seq<string> {
    if words == [] then [] else [words[0].0] + WordsOf(words[1..])
  }

  /** The words are solid, and there is white space behind each but possibly the last. */
  ghost predicate IsSpacing(words: seq<(string, string)>) {
    && (forall i :: 0 <= i < |words| ==> IsSolid(words[i].0) && IsBlank(words[i].1))
    && (forall i :: 0 <= i < |words| - 1 ==> words[i].1 != [])
  }

  lemma SpacingTail(words: seq<(string, string)>)
    requires IsSpacing(words) && words != []
    ensures IsSpacing(words[1..]) && IsSolid(words[0].0) && IsBlank(words[0].1)
    ensures words[0].1 == [] ==> words[1..] == []
  {
    assert forall i :: 0 <= i < |words[1..]| ==> words[1..][i] == words[i + 1];
  }

  /** An action is read as its words, however they are spaced. */
  lemma {:induction false} SpacingIsIgnored(front: string, words: seq<(string, string)>)
    requires IsBlank(front) && IsSpacing(words)
    ensures Split(front + Spaced(words), []) == WordsOf(words)
    decreases |words|
  {
    BlankSkipped(front, Spaced(words));
    if words != [] {
      var (word, gap) := words[0];
      SpacingTail(words);
      SpacingIsIgnored(gap, words[1..]);
      Collections.Associate(word, gap, Spaced(words[1..]));
      WordRead(word, gap, Spaced(words[1..]));
    }
  }

  lemma {:induction false} BlankSkipped(front: string, rest: string)
    requires IsBlank(front)
    ensures Split(front + rest, []) == Split(rest, [])
  {
    if front == [] {
      assert front + rest == rest;
    } else {
      BlankIff(front);
      assert IsSpace(front[0]) && (front + rest)[1..] == front[1..] + rest;
      BlankSkipped(front[1..], rest);
    }
  }

  lemma WordRead(word: string, gap: string, rest: string)
    requires IsSolid(word) && IsBlank(gap) && (gap == [] ==> rest == [])
    ensures Split(word + (gap + rest), []) == [word] + Split(gap + rest, [])
  {
    BlankIff(word);
    BlankIff(gap);
    assert [] + word == word;
    SplitReadsWord(word, gap + rest, []);
    if gap == [] { assert gap + rest == []; } else { WordEnds(word, gap + rest); }
  }

  lemma WordEnds(word: string, rest: string)
    requires IsWord(word) && rest != [] && IsSpace(rest[0])
    ensures Split(rest, word) == [word] + Split(rest, [])
  {
  }

  /** A key is its own key. */
  lemma {:induction false} PolicyKeyIdempotent(fold: Folding, a: string)
    requires IsFolding(fold)
    ensures PolicyKey(fold, PolicyKey(fold, a)) == PolicyKey(fold, a)
  {
    var words := Split(Casefold(fold, a), []);
    CasefoldFolded(fold, a);
    SplitFolded(fold, Casefold(fold, a), []);
    assert IsSpace(' ') && fold(' ') == " ";
    JoinFolded(fold, words);
    FoldedStays(fold, Join(words));
    SplitOfJoin(words);
  }

  lemma {:induction false} AsciiFolds()
    ensures IsFolding(AsciiFold)
  {
  }

  ghost predicate Folded(fold: Folding, s: string) {
    forall i :: 0 <= i < |s| ==> fold(s[i]) == [s[i]]
  }

  lemma {:induction false} CasefoldFolded(fold: Folding, s: string)
    requires IsFolding(fold)
    ensures Folded(fold, Casefold(fold, s))
  {
    if s != [] {
      CasefoldFolded(fold, s[1..]);
      assert if IsSpace(s[0]) then fold(s[0]) == [s[0]] else Folded(fold, fold(s[0]));
    }
  }

  lemma {:induction false} FoldedStays(fold: Folding, s: string)
    requires Folded(fold, s)
    ensures Casefold(fold, s) == s
  {
    if s != [] {
      assert forall i :: 0 <= i < |s[1..]| ==> s[1..][i] == s[i + 1];
      FoldedStays(fold, s[1..]);
      Collections.OneFurther(s, 0);
      assert s[0..] == s;
    }
  }

  lemma {:induction false} SplitFolded(fold: Folding, s: string, word: string)
    requires forall i :: 0 <= i < |word| ==> !IsSpace(word[i])
    requires Folded(fold, s) && Folded(fold, word)
    ensures forall w :: w in Split(s, word) ==> Folded(fold, w)
  {
    if s != [] {
      if IsSpace(s[0]) { SplitFolded(fold, s[1..], []); } else { SplitFolded(fold, s[1..], word + [s[0]]); }
    }
  }

  lemma {:induction false} JoinFolded(fold: Folding, words: seq<string>)
    requires fold(' ') == " " && forall w :: w in words ==> Folded(fold, w)
    ensures Folded(fold, Join(words))
  {
    if words != [] { assert words[0] in words && Folded(fold, words[0]); }
    if |words| > 1 { JoinFolded(fold, words[1..]); }
  }

  // ---------------------------------------------------------------------------------------------
  // Answers

  datatype PermissionOption = PermissionOption(id: string, kind: string)

  datatype Outcome = Cancelled | Selected(optionId: string) | Other

  datatype Decision = Decision(kind: string, optionId: Option<string>)

  const CANCELLED := Decision("cancelled", None)

  predicate IsKind(kind: string) {
    kind == "allow_once" || kind == "allow_always" || kind == "reject_once" || kind == "reject_always"
  }

  predicate IsAlways(kind: string) {
    kind == "allow_always" || kind == "reject_always"
  }

  /** `by_id.get(id)`: of several options with one id the last is the one the dictionary holds. */
  function OptionById(options: seq<PermissionOption>, id: string): (r: Option<PermissionOption>)
    ensures r.Some? ==> r.value.id == id && r.value in options
    ensures r.None? ==> forall o :: o in options ==> o.id != id
  {
    if options == [] then None
    else if options[|options| - 1].id == id then Some(options[|options| - 1])
    else OptionById(options[..|options| - 1], id)
  }

  /** `_decode_outcome`; an error for an answer that is neither a cancellation nor a known option. */
  function DecodeOutcome(outcome: Outcome, options: seq<PermissionOption>): (r: Result<Decision, ()>)
    ensures r.Ok? && r.value.kind != "cancelled" ==>
              outcome.Selected? && IsKind(r.value.kind) && r.value.optionId == Some(outcome.optionId) &&
              PermissionOption(outcome.optionId, r.value.kind) in options
    ensures r.Ok? && r.value.kind == "cancelled" <==> outcome.Cancelled?
  {
    match outcome
    case Cancelled => Ok(CANCELLED)
    case Other => Err(())
    case Selected(id) =>
      match OptionById(options, id)
      case None => Err(())
      case Some(option) => if IsKind(option.kind) then Ok(Decision(option.kind, Some(id))) else Err(())
  }

  /** The last of the options with this id. */
  ghost predicate IsLastOption(options: seq<PermissionOption>, id: string, i: nat) {
    i < |options| && options[i].id == id && forall j :: i < j < |options| ==> options[j].id != id
  }

  lemma {:induction false} OptionByIdIff(options: seq<PermissionOption>, id: string, i: nat)
    requires IsLastOption(options, id, i)
    ensures OptionById(options, id) == Some(options[i])
  {
    var n := |options| - 1;
    if i < n {
      assert options[..n][i] == options[i];
      OptionByIdIff(options[..n], id, i);
    }
  }

  /** Which answers count: the option selected last in the list under its id must have one of the four kinds, and its
      kind is the decision. */
  lemma {:induction false} SelectedIff(options: seq<PermissionOption>, id: string, i: nat)
    requires IsLastOption(options, id, i)
    ensures DecodeOutcome(Selected(id), options) ==
              var kind := options[i].kind;
              if kind == "allow_once" || kind == "allow_always" || kind == "reject_once" || kind == "reject_always"
              then Ok(Decision(kind, Some(id))) else Err(())
  {
    OptionByIdIff(options, id, i);
  }

  // ---------------------------------------------------------------------------------------------
  // The registry object

  datatype EntryState = Pending | Settled | Marked | TimedOut | Failed

  // What the lock sections do; the object and the interleaved system below share these.

  function Registered<E>(pending: map<string, E>, id: string, entry: E): map<string, E> {
    if id in pending then pending else pending[id := entry]
  }

  function WithPolicy(policies: map<(string, string), string>, state: EntryState, key: (string, string), kind: string):
    map<(string, string), string>
  {
    if state.Pending? then policies[key := kind] else policies
  }

  function SettledState(state: EntryState): EntryState {
    if state.Marked? then Marked else Settled
  }

  function SettledDecision(state: EntryState, decision: Decision): Decision {
    if state.Marked? then CANCELLED else decision
  }

  function PoliciesWithout(policies: map<(string, string), string>, session: string): map<(string, string), string> {
    map k | k in policies && k.0 != session :: policies[k]
  }

  class PendingPermission {
    const permissionId: string
    const sessionId: string
    var state: EntryState
    var taskRunning: bool      // the client RPC has not ended and nobody has asked it to

    constructor (permissionId: string, sessionId: string)
      ensures this.permissionId == permissionId && this.sessionId == sessionId
      ensures state == Pending && taskRunning
    {
      this.permissionId, this.sessionId := permissionId, sessionId;
      state, taskRunning := Pending, true;
    }
  }

  class PermissionCoordinator {
    var pending: map<string, PendingPermission>
    var policies: map<(string, string), string>

    /** Every entry is filed under its own id. */
    ghost predicate Valid()
      reads this
    {
      forall p :: p in pending ==> pending[p].permissionId == p
    }

    constructor ()
      ensures Valid() && pending == map[] && policies == map[]
    {
      pending, policies := map[], map[];
    }

    /** `resolve`: register unless the id is already pending. */
    method Register(entry: PendingPermission) returns (ok: bool)
      requires Valid()
      modifies this`pending, entry`taskRunning
      ensures Valid()
      ensures ok <==> entry.permissionId !in old(pending)
      ensures pending == Registered(old(pending), entry.permissionId, entry)
      ensures entry.taskRunning == (ok && old(entry.taskRunning))
    {
      if entry.permissionId in pending {
        entry.taskRunning := false;
        return false;
      }
      pending := pending[entry.permissionId := entry];
      return true;
    }

    /** `resolve`: an always-answer becomes a policy unless the entry was cancelled meanwhile. */
    method StorePolicy(entry: PendingPermission, key: (string, string), kind: string)
      modifies this`policies
      ensures policies == WithPolicy(old(policies), entry.state, key, kind)
    {
      if entry.state == Pending {
        policies := policies[key := kind];
      }
    }

    /** `resolve`: the decision stands unless the entry was cancelled meanwhile. */
    method Settle(entry: PendingPermission, decision: Decision) returns (r: Decision)
      modifies entry`state
      ensures r == SettledDecision(old(entry.state), decision) && entry.state == SettledState(old(entry.state))
    {
      if entry.state == Marked {
        return CANCELLED;
      }
      entry.state := Settled;
      return decision;
    }

    /** `resolve`, finally: forget the entry. */
    method Remove(entry: PendingPermission)
      requires Valid() && entry.permissionId in pending && pending[entry.permissionId] == entry
      modifies this`pending
      ensures Valid() && pending == old(pending) - {entry.permissionId}
      ensures entry !in pending.Values
    {
      pending := pending - {entry.permissionId};
    }

    /** `cancel_session`: mark every entry of the session, cancel what still runs, drop the session's policies. */
    method CancelSession(session: string)
      requires Valid()
      modifies this`policies, pending.Values
      ensures Valid() && pending == old(pending)
      ensures forall p :: p in pending ==>
                if pending[p].sessionId == session then pending[p].state == Marked && !pending[p].taskRunning
                else pending[p].state == old(pending[p].state) && pending[p].taskRunning == old(pending[p].taskRunning)
      ensures policies == PoliciesWithout(old(policies), session)
    {
      var todo := pending.Keys;
      while todo != {}
        invariant todo <= pending.Keys && pending == old(pending) && policies == old(policies)
        invariant forall p :: p in pending ==>
          if p !in todo && pending[p].sessionId == session then pending[p].state == Marked && !pending[p].taskRunning
          else pending[p].state == old(pending[p].state) && pending[p].taskRunning == old(pending[p].taskRunning)
      {
        var p :| p in todo;
        todo := todo - {p};
        var item := pending[p];
        assert forall q :: q in pending && q != p ==> pending[q] != item;
        if item.sessionId == session {
          item.state := Marked;
          if item.taskRunning {
            item.taskRunning := false;
          }
        }
      }
      policies := map k | k in policies && k.0 != session :: policies[k];
    }
  }
}
