/** The opaque page cursor (src/synapse/acp/lifecycle.py:27-42): a JSON array of two strings (RFC 8259, section 7),
    base64url without padding (RFC 4648, sections 3.2 and 5). */
module CursorCodec {
  import Collections
  import opened Wrappers
  import opened Unicode

  // ---------------------------------------------------------------------------------------------
  // JSON strings as `json.dumps` writes them: everything outside printable ASCII is escaped

  function HexDigit(d: nat): (c: char)
    requires d < 16
  {
    if d < 10 then ('0' as int + d) as char else ('a' as int + d - 10) as char
  }

  function HexValue(c: char): (r: Option<nat>)
    ensures r.Some? ==> r.value < 16
  {
    if '0' <= c <= '9' then Some(c as int - '0' as int)
    else if 'a' <= c <= 'f' then Some(c as int - 'a' as int + 10)
    else if 'A' <= c <= 'F' then Some(c as int - 'A' as int + 10)
    else None
  }

  /** `\uXXXX` */
  function EscapeUnit(u: Unit): (r: string)
    ensures |r| == 6
  {
    ['\\', 'u', HexDigit(u / 0x1000), HexDigit(u / 0x100 % 0x10), HexDigit(u / 0x10 % 0x10), HexDigit(u % 0x10)]
  }

  function EscapeChar(c: char): (r: string)
    ensures |r| >= 1
  {
    var n := c as int;
    if c == '"' then "\\\""
    else if c == '\\' then "\\\\"
    else if c == '\n' then "\\n"
    else if c == '\r' then "\\r"
    else if c == '\t' then "\\t"
    else if n == 8 then "\\b"
    else if n == 12 then "\\f"
    else if 0x20 <= n <= 0x7E then [c]
    else if n < 0x10000 then EscapeUnit(n)
    else EscapeUnit(UnitsOfScalar(c)[0]) + EscapeUnit(UnitsOfScalar(c)[1])
  }

  function Escape(s: string): string {
    if s == [] then [] else EscapeChar(s[0]) + Escape(s[1..])
  }

  function ReadUnit(t: string): (r: Option<Unit>) {
    if |t| < 6 || t[0] != '\\' || t[1] != 'u' then None
    else
      var (a, b, c, d) := (HexValue(t[2]), HexValue(t[3]), HexValue(t[4]), HexValue(t[5]));
      if a.None? || b.None? || c.None? || d.None? then None
      else Some(a.value * 0x1000 + b.value * 0x100 + c.value * 0x10 + d.value)
  }

  /** One character of a JSON string and how much of the text it takes; `None` at the closing quote, at a
      malformed escape and at a lone surrogate. */
  function ReadChar(t: string): (r: Option<(char, nat)>)
    ensures r.Some? ==> 1 <= r.value.1 <= |t|
  {
    if t == [] || t[0] == '"' || t[0] as int < 0x20 then None
    else if t[0] != '\\' then Some((t[0], 1))
    else if |t| < 2 then None
    else if t[1] == '"' || t[1] == '\\' || t[1] == '/' then Some((t[1], 2))
    else if t[1] == 'n' then Some(('\n', 2))
    else if t[1] == 'r' then Some(('\r', 2))
    else if t[1] == 't' then Some(('\t', 2))
    else if t[1] == 'b' then Some((8 as char, 2))
    else if t[1] == 'f' then Some((12 as char, 2))
    else
      match ReadUnit(t)
      case None => None
      case Some(u) =>
        if u < 0xD800 || u >= 0xE000 then Some((u as char, 6))
        else
          match ReadUnit(t[6..])
          case None => None
          case Some(v) =>
            match DecodeUnits([u, v])
            case Some((c, 2)) => Some((c, 12))
            case _ => None
  }

  /** The rest of a string literal after its opening quote, and the text after its closing quote. */
  function ReadString(t: string): (r: Option<(string, string)>)
    ensures r.Some? ==> |r.value.1| < |t|
    decreases |t|
  {
    if t != [] && t[0] == '"' then Some(([], t[1..]))
    else
      match ReadChar(t)
      case None => None
      case Some((c, n)) =>
        match ReadString(t[n..])
        case None => None
        case Some((s, rest)) => Some(([c] + s, rest))
  }

  /** `json.dumps([updated_at, session_id], separators=(",", ":"))` */
  function PairText(a: string, b: string): string {
    "[\"" + Escape(a) + "\",\"" + Escape(b) + "\"]"
  }

  /** `json.loads` on arrays of two strings written without white space; anything else is refused. */
  function ReadPair(t: string): Option<(string, string)> {
    if !("[\"" <= t) then None
    else
      match ReadString(t[2..])
      case None => None
      case Some((a, rest)) =>
        if !(",\"" <= rest) then None
        else
          match ReadString(rest[2..])
          case None => None
          case Some((b, end)) => if end == "]" then Some((a, b)) else None
  }

  lemma UnitRead(u: Unit, rest: string)
    ensures ReadUnit(EscapeUnit(u) + rest) == Some(u)
  {
    assert u / 0x10 / 0x10 == u / 0x100 && u / 0x100 / 0x10 == u / 0x1000;
  }

  lemma CharRead(c: char, rest: string)
    ensures ReadChar(EscapeChar(c) + rest) == Some((c, |EscapeChar(c)|))
    ensures EscapeChar(c)[0] != '"'
  {
    var n := c as int;
    var t := EscapeChar(c) + rest;
    if n >= 0x10000 {
      var u := UnitsOfScalar(c);
      assert t == EscapeUnit(u[0]) + (EscapeUnit(u[1]) + rest);
      UnitRead(u[0], EscapeUnit(u[1]) + rest);
      assert t[6..] == EscapeUnit(u[1]) + rest;
      UnitRead(u[1], rest);
      assert DecodeUnits([u[0], u[1]]) == Some((c, 2));
    } else if EscapeChar(c) == EscapeUnit(n) {
      UnitRead(n, rest);
    }
  }

  lemma {:induction false} StringRead(s: string, rest: string)
    ensures ReadString(Escape(s) + "\"" + rest) == Some((s, rest))
  {
    var t := Escape(s) + "\"" + rest;
    if s == [] {
      assert t[1..] == rest;
    } else {
      var head := EscapeChar(s[0]);
      var tail := Escape(s[1..]) + "\"" + rest;
      assert t == head + tail;
      StringRead(s[1..], rest);
      OneMoreRead(s[0], tail, s[1..], rest);
      Collections.OneFurther(s, 0);
    }
  }

  lemma OneMoreRead(c: char, tail: string, s: string, rest: string)
    requires ReadString(tail) == Some((s, rest))
    ensures ReadString(EscapeChar(c) + tail) == Some(([c] + s, rest))
  {
    CharRead(c, tail);
    assert (EscapeChar(c) + tail)[|EscapeChar(c)|..] == tail;
  }

  lemma SecondRead(b: string)
    ensures ReadString((",\"" + Escape(b) + "\"]")[2..]) == Some((b, "]"))
  {
    assert (",\"" + Escape(b) + "\"]")[2..] == Escape(b) + "\"" + "]";
    StringRead(b, "]");
  }

  lemma {:induction false} PairRead(a: string, b: string)
    ensures ReadPair(PairText(a, b)) == Some((a, b))
  {
    var rest := ",\"" + Escape(b) + "\"]";
    assert PairText(a, b)[2..] == Escape(a) + "\"" + rest;
    StringRead(a, rest);
    assert PairText(a, b)[..2] == "[\"" && rest[..2] == ",\"";
    SecondRead(b);
  }

  // ---------------------------------------------------------------------------------------------
  // base64url

  type Sextet = x: int | 0 <= x < 64

  function Letter(x: Sextet): char {
    if x < 26 then ('A' as int + x) as char
    else if x < 52 then ('a' as int + x - 26) as char
    else if x < 62 then ('0' as int + x - 52) as char
    else if x == 62 then '-' else '_'
  }

  /** `urlsafe_b64decode` maps `-` and `_` to the standard letters, which it takes as well. */
  function LetterValue(c: char): (r: Option<int>)
    ensures r.Some? ==> 0 <= r.value < 64
  {
    if 'A' <= c <= 'Z' then Some(c as int - 'A' as int)
    else if 'a' <= c <= 'z' then Some(c as int - 'a' as int + 26)
    else if '0' <= c <= '9' then Some(c as int - '0' as int + 52)
    else if c == '-' || c == '+' then Some(62)
    else if c == '_' || c == '/' then Some(63)
    else None
  }

  /** `urlsafe_b64encode` */
  function Base64(b: seq<Byte>): string {
    if b == [] then []
    else if |b| == 1 then [Letter(b[0] / 4), Letter(b[0] % 4 * 16), '=', '=']
    else if |b| == 2 then [Letter(b[0] / 4), Letter(b[0] % 4 * 16 + b[1] / 16), Letter(b[1] % 16 * 4), '=']
    else [Letter(b[0] / 4), Letter(b[0] % 4 * 16 + b[1] / 16), Letter(b[1] % 16 * 4 + b[2] / 64), Letter(b[2] % 64)]
         + Base64(b[3..])
  }

  /** The bytes of one group of four letters, of which the last one or two may be padding. */
  function ReadGroup(a: char, b: char, c: char, d: char): Option<seq<Byte>> {
    var (w, x, y, z) := (LetterValue(a), LetterValue(b), LetterValue(c), LetterValue(d));
    if w.None? || x.None? then None
    else if c == '=' && d == '=' then Some([w.value * 4 + x.value / 16])
    else if y.None? then None
    else if d == '=' then Some([w.value * 4 + x.value / 16, x.value % 16 * 16 + y.value / 4])
    else if z.None? then None
    else Some([w.value * 4 + x.value / 16, x.value % 16 * 16 + y.value / 4, y.value % 4 * 64 + z.value])
  }

  /** Decoding of padded text; a group with padding has to be the last. */
  function FromBase64(t: string): Option<seq<Byte>> {
    if t == [] then Some([])
    else if |t| < 4 then None
    else
      match ReadGroup(t[0], t[1], t[2], t[3])
      case None => None
      case Some(bytes) =>
        if |bytes| < 3 && |t| > 4 then None
        else
          match FromBase64(t[4..])
          case None => None
          case Some(rest) => Some(bytes + rest)
  }

  /** `rstrip("=")` */
  function StripPadding(t: string): (r: string)
    ensures |r| <= |t| && r == t[..|r|] && forall i :: |r| <= i < |t| ==> t[i] == '='
    ensures r != [] ==> r[|r| - 1] != '='
  {
    if t != [] && t[|t| - 1] == '=' then StripPadding(t[..|t| - 1]) else t
  }

  /** `cursor + "=" * (-len(cursor) % 4)` */
  function Pad(t: string): string {
    t + seq((4 - |t| % 4) % 4, _ => '=')
  }

  lemma LetterRead(x: Sextet)
    ensures LetterValue(Letter(x)) == Some(x) && Letter(x) != '='
  {
  }

  lemma GroupRead(b0: Byte, b1: Byte, b2: Byte)
    ensures ReadGroup(Letter(b0 / 4), Letter(b0 % 4 * 16 + b1 / 16), Letter(b1 % 16 * 4 + b2 / 64), Letter(b2 % 64))
            == Some([b0, b1, b2])
  {
    LetterRead(b0 / 4);
    LetterRead(b0 % 4 * 16 + b1 / 16);
    LetterRead(b1 % 16 * 4 + b2 / 64);
    LetterRead(b2 % 64);
  }

  lemma OneRead(b0: Byte)
    ensures FromBase64([Letter(b0 / 4), Letter(b0 % 4 * 16), '=', '=']) == Some([b0])
  {
    LetterRead(b0 / 4);
    LetterRead(b0 % 4 * 16);
    LastGroup(Letter(b0 / 4), Letter(b0 % 4 * 16), '=', '=');
  }

  lemma TwoRead(b0: Byte, b1: Byte)
    ensures FromBase64([Letter(b0 / 4), Letter(b0 % 4 * 16 + b1 / 16), Letter(b1 % 16 * 4), '=']) == Some([b0, b1])
  {
    LetterRead(b0 / 4);
    LetterRead(b0 % 4 * 16 + b1 / 16);
    LetterRead(b1 % 16 * 4);
    LastGroup(Letter(b0 / 4), Letter(b0 % 4 * 16 + b1 / 16), Letter(b1 % 16 * 4), '=');
  }

  lemma LastGroup(a: char, b: char, c: char, d: char)
    ensures FromBase64([a, b, c, d]) == ReadGroup(a, b, c, d)
  {
    assert [a, b, c, d][4..] == [];
    var bytes := ReadGroup(a, b, c, d);
    assert bytes.Some? ==> bytes.value + [] == bytes.value;
  }

  lemma FullGroup(a: char, b: char, c: char, d: char, more: string)
    requires ReadGroup(a, b, c, d).Some? && |ReadGroup(a, b, c, d).value| == 3 && FromBase64(more).Some?
    ensures FromBase64([a, b, c, d] + more) == Some(ReadGroup(a, b, c, d).value + FromBase64(more).value)
  {
    assert ([a, b, c, d] + more)[4..] == more;
  }

  lemma {:induction false} Base64Read(b: seq<Byte>)
    ensures FromBase64(Base64(b)) == Some(b)
  {
    if b == [] {
    } else if |b| == 1 {
      OneRead(b[0]);
      assert b == [b[0]];
    } else if |b| == 2 {
      TwoRead(b[0], b[1]);
      assert b == [b[0], b[1]];
    } else {
      Base64Read(b[3..]);
      GroupRead(b[0], b[1], b[2]);
      FullGroup(Letter(b[0] / 4), Letter(b[0] % 4 * 16 + b[1] / 16),
                Letter(b[1] % 16 * 4 + b[2] / 64), Letter(b[2] % 64),
                Base64(b[3..]));
      Collections.FirstThree(b);
    }
  }

  /** A whole number of groups, ending in at most two padding signs. */
  predicate Shaped(t: string) {
    |t| % 4 == 0 && (t != [] ==> t[|t| - 3] != '=')
  }

  lemma GroupShaped(group: string, rest: string, x: Sextet)
    requires |group| == 4 && group[1] == Letter(x) && Shaped(rest)
    ensures Shaped(group + rest)
  {
    LetterRead(x);
    if rest == [] {
      assert group + rest == group;
    } else {
      assert (group + rest)[|group + rest| - 3] == rest[|rest| - 3];
    }
  }

  lemma OneShaped(b0: Byte)
    ensures Shaped([Letter(b0 / 4), Letter(b0 % 4 * 16), '=', '='])
  {
    LetterRead(b0 % 4 * 16);
  }

  lemma TwoShaped(b0: Byte, b1: Byte)
    ensures Shaped([Letter(b0 / 4), Letter(b0 % 4 * 16 + b1 / 16), Letter(b1 % 16 * 4), '='])
  {
    LetterRead(b0 % 4 * 16 + b1 / 16);
  }

  lemma {:induction false} Base64Shape(b: seq<Byte>)
    ensures Shaped(Base64(b))
  {
    if b == [] {
    } else if |b| == 1 {
      OneShaped(b[0]);
    } else if |b| == 2 {
      TwoShaped(b[0], b[1]);
    } else {
      Base64Shape(b[3..]);
      var x: Sextet := b[0] % 4 * 16 + b[1] / 16;
      GroupShaped([Letter(b[0] / 4), Letter(x), Letter(b[1] % 16 * 4 + b[2] / 64), Letter(b[2] % 64)],
                  Base64(b[3..]), x);
    }
  }

  lemma MissingLetters(total: nat, missing: nat)
    requires total % 4 == 0 && missing <= 2 && missing <= total
    ensures (4 - (total - missing) % 4) % 4 == missing
  {
  }

  /** Dropping the padding loses nothing: its length can be recomputed from what is left. */
  lemma {:induction false} PaddingRecomputed(t: string)
    requires Shaped(t)
    ensures Pad(StripPadding(t)) == t
  {
    var r := StripPadding(t);
    var missing := |t| - |r|;
    assert missing <= 2;
    MissingLetters(|t|, missing);
    assert |Pad(r)| == |t|;
    assert forall i :: 0 <= i < |t| ==> Pad(r)[i] == t[i];
  }

  // ---------------------------------------------------------------------------------------------

  /** `_encode_cursor` */
  function EncodeCursor(updatedAt: string, sessionId: string): string {
    StripPadding(Base64(EncodeUtf8(PairText(updatedAt, sessionId))))
  }

  /** `_decode_cursor`; no cursor, an empty one and an unreadable one all mean the first page. */
  function DecodeCursor(cursor: Option<string>): Option<(string, string)> {
    if cursor.None? || cursor.value == [] then None
    else
      match FromBase64(Pad(cursor.value))
      case None => None
      case Some(bytes) =>
        match DecodeUtf8(bytes)
        case None => None
        case Some(text) => ReadPair(text)
  }

  /** Decoding undoes encoding, for all strings. */
  lemma {:induction false} CursorRoundTrip(updatedAt: string, sessionId: string)
    ensures DecodeCursor(Some(EncodeCursor(updatedAt, sessionId))) == Some((updatedAt, sessionId))
  {
    var text := PairText(updatedAt, sessionId);
    var bytes := EncodeUtf8(text);
    assert text[0] == '[' && bytes != [];
    Base64Shape(bytes);
    PaddingRecomputed(Base64(bytes));
    assert EncodeCursor(updatedAt, sessionId) != [];
    Base64Read(bytes);
    Utf8DecodesEncoded(text);
    PairRead(updatedAt, sessionId);
  }
}
