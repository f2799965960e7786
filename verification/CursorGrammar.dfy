/** What the page cursor's reader accepts and what its writer produces (src/synapse/acp/lifecycle.py:27-42), against
    the grammar of JSON strings (RFC 8259, section 7) and the URL-safe alphabet (RFC 4648, section 5). */
module CursorGrammar {
  import Collections
  import opened Wrappers
  import opened Unicode
  import opened CursorCodec

  // ---------------------------------------------------------------------------------------------
  // The grammar

  predicate IsHex(c: char, d: int) {
    if 0 <= d < 10 then c as int == '0' as int + d
    else 10 <= d < 16 && (c as int == 'a' as int + d - 10 || c as int == 'A' as int + d - 10)
  }

  /** The escape `\uXXXX` of one UTF-16 code unit. */
  predicate IsUnit(x: string, u: int) {
    |x| == 6 && x[0] == '\\' && x[1] == 'u' && 0 <= u < 0x10000 &&
    IsHex(x[2], u / 0x1000) && IsHex(x[3], u / 0x100 % 0x10) && IsHex(x[4], u / 0x10 % 0x10) && IsHex(x[5], u % 0x10)
  }

  /** A two-character escape. */
  predicate IsShort(x: string, c: char) {
    |x| == 2 && x[0] == '\\' &&
    match x[1]
    case '"' => c == '"'
    case '\\' => c == '\\'
    case '/' => c == '/'
    case 'b' => c as int == 8
    case 'f' => c as int == 12
    case 'n' => c as int == 10
    case 'r' => c as int == 13
    case 't' => c as int == 9
    case _ => false
  }

  /** The text of one character of a JSON string. */
  predicate IsPiece(x: string, c: char) {
    var n := c as int;
    || (x == [c] && c != '"' && c != '\\' && n >= 0x20)
    || IsShort(x, c)
    || IsUnit(x, n)
    || (|x| == 12 && n >= 0x10000 &&
        IsUnit(x[..6], 0xD800 + (n - 0x10000) / 0x400) && IsUnit(x[6..], 0xDC00 + (n - 0x10000) % 0x400))
  }

  /** The text between the quotes denotes the string. */
  ghost predicate Denotes(x: string, s: string)
    decreases |s|
  {
    if s == [] then x == []
    else exists n :: 0 < n <= |x| && IsPiece(x[..n], s[0]) && Denotes(x[n..], s[1..])
  }

  ghost predicate IsPairText(t: string, a: string, b: string) {
    exists x, y :: IsPairOf(t, x, y) && Denotes(x, a) && Denotes(y, b)
  }

  predicate IsPairOf(t: string, x: string, y: string) {
    t == "[\"" + x + "\",\"" + y + "\"]"
  }

  // ---------------------------------------------------------------------------------------------
  // Reading

  lemma HexIff(c: char, d: nat)
    ensures HexValue(c) == Some(d) <==> IsHex(c, d)
  {
  }

  lemma UnitIff(t: string, u: Unit)
    ensures ReadUnit(t) == Some(u) <==> |t| >= 6 && IsUnit(t[..6], u)
  {
    if ReadUnit(t) == Some(u) { UnitSound(t, u); }
    if |t| >= 6 && IsUnit(t[..6], u) { UnitComplete(t, u); }
  }

  lemma UnitSound(t: string, u: Unit)
    requires ReadUnit(t) == Some(u)
    ensures IsUnit(t[..6], u)
  {
    var (a, b, c, d) := (HexValue(t[2]).value, HexValue(t[3]).value, HexValue(t[4]).value, HexValue(t[5]).value);
    Digits4(a, b, c, d);
    HexIff(t[2], a);
    HexIff(t[3], b);
    HexIff(t[4], c);
    HexIff(t[5], d);
  }

  lemma UnitComplete(t: string, u: Unit)
    requires |t| >= 6 && IsUnit(t[..6], u)
    ensures ReadUnit(t) == Some(u)
  {
    Regroup4(u);
    HexIff(t[2], u / 0x1000);
    HexIff(t[3], u / 0x100 % 0x10);
    HexIff(t[4], u / 0x10 % 0x10);
    HexIff(t[5], u % 0x10);
  }

  lemma Regroup4(u: nat)
    requires u < 0x10000
    ensures u == u / 0x1000 * 0x1000 + u / 0x100 % 0x10 * 0x100 + u / 0x10 % 0x10 * 0x10 + u % 0x10
  {
    assert u / 0x10 / 0x10 == u / 0x100 && u / 0x100 / 0x10 == u / 0x1000;
  }

  lemma Digits4(a: nat, b: nat, c: nat, d: nat)
    requires a < 0x10 && b < 0x10 && c < 0x10 && d < 0x10
    ensures var u := a * 0x1000 + b * 0x100 + c * 0x10 + d;
            u / 0x1000 == a && u / 0x100 % 0x10 == b && u / 0x10 % 0x10 == c && u % 0x10 == d
  {
    var u := a * 0x1000 + b * 0x100 + c * 0x10 + d;
    assert u / 0x10 == a * 0x100 + b * 0x10 + c;
    assert u / 0x100 == a * 0x10 + b;
  }

  /** One character is read exactly when a piece that denotes it comes first. */
  lemma {:induction false} CharIff(t: string, c: char, n: nat)
    ensures ReadChar(t) == Some((c, n)) <==> n <= |t| && IsPiece(t[..n], c)
  {
    if |t| >= 2 && t[0] == '\\' && t[1] == 'u' {
      UnitCharIff(t, c, n);
    } else {
      if 0 < n <= |t| { assert t[..n][0] == t[0]; }
      if 1 < n <= |t| { assert t[..n][1] == t[1]; }
    }
  }

  /** The same after a backslash and the letter u. */
  lemma UnitCharIff(t: string, c: char, n: nat)
    requires |t| >= 2 && t[0] == '\\' && t[1] == 'u'
    ensures ReadChar(t) == Some((c, n)) <==> n <= |t| && IsPiece(t[..n], c)
  {
    LengthAfterU(t);
    if n == 6 {
      SingleUnit(t, c);
    } else if n == 12 {
      if |t| >= 12 { PairHalves(t, c); }
    } else if n <= |t| && IsPiece(t[..n], c) {
      PieceAfterU(t, n, c);
    }
  }

  lemma LengthAfterU(t: string)
    requires |t| >= 2 && t[0] == '\\' && t[1] == 'u'
    ensures ReadChar(t).Some? ==> ReadChar(t).value.1 == 6 || ReadChar(t).value.1 == 12
  {
  }

  lemma PieceAfterU(t: string, n: nat, c: char)
    requires 2 <= |t| && n <= |t| && t[0] == '\\' && t[1] == 'u' && IsPiece(t[..n], c)
    ensures n == 6 || n == 12
  {
    if n > 0 { assert t[..n][0] == t[0]; }
    if n > 1 { assert t[..n][1] == t[1]; }
  }

  lemma SingleUnit(t: string, c: char)
    requires |t| >= 2 && t[0] == '\\' && t[1] == 'u'
    ensures ReadChar(t) == Some((c, 6)) <==> 6 <= |t| && IsPiece(t[..6], c)
  {
    var n := c as int;
    if |t| >= 6 {
      assert IsPiece(t[..6], c) <==> IsUnit(t[..6], n);
      if n < 0x10000 { UnitIff(t, n); }
      assert ReadUnit(t).Some? ==> 0 <= ReadUnit(t).value < 0x10000;
    }
  }

  lemma PairHalves(t: string, c: char)
    requires |t| >= 12 && t[0] == '\\' && t[1] == 'u'
    ensures ReadChar(t) == Some((c, 12)) <==> IsPiece(t[..12], c)
  {
    var n := c as int;
    if n >= 0x10000 {
      PairIsPiece(t, c);
      UnitIff(t, 0xD800 + (n - 0x10000) / 0x400);
      UnitIff(t[6..], 0xDC00 + (n - 0x10000) % 0x400);
      PairRead(t, c);
    } else {
      NoPairRead(t, c);
    }
  }

  lemma PairIsPiece(t: string, c: char)
    requires |t| >= 12 && c as int >= 0x10000
    ensures var n := c as int;
            IsPiece(t[..12], c) <==>
            IsUnit(t[..6], 0xD800 + (n - 0x10000) / 0x400) && IsUnit(t[6..][..6], 0xDC00 + (n - 0x10000) % 0x400)
  {
    assert t[..12][..6] == t[..6] && t[..12][6..] == t[6..][..6];
  }

  lemma NoPairRead(t: string, c: char)
    requires |t| >= 12 && t[0] == '\\' && t[1] == 'u' && c as int < 0x10000
    ensures ReadChar(t) != Some((c, 12)) && !IsPiece(t[..12], c)
  {
  }

  /** Two halves are read as a character exactly when they are its surrogates. */
  lemma PairRead(t: string, c: char)
    requires |t| >= 12 && t[0] == '\\' && t[1] == 'u' && c as int >= 0x10000
    ensures var n := c as int;
            ReadChar(t) == Some((c, 12)) <==>
            ReadUnit(t) == Some(0xD800 + (n - 0x10000) / 0x400) &&
            ReadUnit(t[6..]) == Some(0xDC00 + (n - 0x10000) % 0x400)
  {
  }

  /** What is read as a string denotes it. */
  lemma {:induction false} ReadDenotes(t: string) returns (x: string)
    requires ReadString(t).Some?
    ensures var (s, rest) := ReadString(t).value; t == x + "\"" + rest && Denotes(x, s)
    decreases |t|
  {
    if t != [] && t[0] == '"' {
      x := [];
      assert t == [] + "\"" + t[1..];
    } else {
      var (c, n) := ReadChar(t).value;
      CharIff(t, c, n);
      var y := ReadDenotes(t[n..]);
      x := t[..n] + y;
      PieceFirst(t[..n], c, y, ReadString(t[n..]).value.0);
      Collections.Halves(t, n);
      Collections.Associate(t[..n], y, "\"" + ReadString(t[n..]).value.1);
      Collections.Associate(t[..n] + y, "\"", ReadString(t[n..]).value.1);
      Collections.Associate(y, "\"", ReadString(t[n..]).value.1);
    }
  }

  lemma PieceFirst(piece: string, c: char, y: string, s: string)
    requires IsPiece(piece, c) && Denotes(y, s)
    ensures Denotes(piece + y, [c] + s)
  {
    var x, n := piece + y, |piece|;
    assert ([c] + s)[1..] == s;
    assert 0 < n <= |x| && x[..n] == piece && x[n..] == y;
  }

  /** What denotes a string is read as that string. */
  lemma {:induction false} DenotedIsRead(x: string, s: string, rest: string)
    requires Denotes(x, s)
    ensures ReadString(x + "\"" + rest) == Some((s, rest))
    decreases |s|
  {
    if s == [] {
      assert x + "\"" + rest == "\"" + rest && ("\"" + rest)[1..] == rest;
    } else {
      var n := FirstPiece(x, s);
      DenotedIsRead(x[n..], s[1..], rest);
      PieceIsRead(x, n, s[0], rest);
      ReadOneMore(x + "\"" + rest, s[0], n, s[1..], rest);
      Collections.OneFurther(s, 0);
    }
  }

  lemma FirstPiece(x: string, s: string) returns (n: nat)
    requires Denotes(x, s) && s != []
    ensures 0 < n <= |x| && IsPiece(x[..n], s[0]) && Denotes(x[n..], s[1..])
  {
    n :| 0 < n <= |x| && IsPiece(x[..n], s[0]) && Denotes(x[n..], s[1..]);
  }

  lemma PieceIsRead(x: string, n: nat, c: char, rest: string)
    requires n <= |x| && IsPiece(x[..n], c)
    ensures var t := x + "\"" + rest;
            ReadChar(t) == Some((c, n)) && t[n..] == x[n..] + "\"" + rest
  {
    var t := x + "\"" + rest;
    assert t[..n] == x[..n];
    CharIff(t, c, n);
  }

  lemma ReadOneMore(t: string, c: char, n: nat, s: string, rest: string)
    requires ReadChar(t) == Some((c, n)) && ReadString(t[n..]) == Some((s, rest))
    ensures ReadString(t) == Some(([c] + s, rest))
  {
  }

  /** The reader takes exactly the arrays of two strings written without white space. */
  lemma {:induction false} PairIff(t: string, a: string, b: string)
    ensures ReadPair(t) == Some((a, b)) <==> IsPairText(t, a, b)
  {
    if ReadPair(t) == Some((a, b)) { PairDenotes(t, a, b); }
    if IsPairText(t, a, b) {
      var x, y :| IsPairOf(t, x, y) && Denotes(x, a) && Denotes(y, b);
      PairIsRead(t, a, b, x, y);
    }
  }

  lemma PairDenotes(t: string, a: string, b: string)
    requires ReadPair(t) == Some((a, b))
    ensures IsPairText(t, a, b)
  {
    var first := t[2..];
    var second := ReadString(first).value.1[2..];
    var x := ReadDenotes(first);
    var y := ReadDenotes(second);
    assert t == "[\"" + first;
    assert ReadString(first).value.1 == ",\"" + second;
    PutTogether(t, first, second, x, y);
  }

  lemma PutTogether(t: string, first: string, second: string, x: string, y: string)
    requires t == "[\"" + first && first == x + "\"" + (",\"" + second) && second == y + "\"" + "]"
    ensures IsPairOf(t, x, y)
  {
    assert "\"" + ",\"" == "\",\"" && "\"" + "]" == "\"]";
    assert first == x + "\",\"" + second;
    assert second == y + "\"]";
  }

  lemma PairIsRead(t: string, a: string, b: string, x: string, y: string)
    requires IsPairOf(t, x, y) && Denotes(x, a) && Denotes(y, b)
    ensures ReadPair(t) == Some((a, b))
  {
    var rest := ",\"" + (y + "\"" + "]");
    assert t[2..] == x + "\"" + rest && t[..2] == "[\"";
    DenotedIsRead(x, a, rest);
    assert rest[2..] == y + "\"" + "]" && rest[..2] == ",\"";
    DenotedIsRead(y, b, "]");
  }

  /** A cursor stands for a position exactly when it is the base64 of the UTF-8 of such an array; every other one means
      the first page. */
  lemma {:induction false} CursorIff(t: string, a: string, b: string)
    ensures DecodeCursor(Some(t)) == Some((a, b)) <==>
            exists text :: IsPairText(text, a, b) && FromBase64(Pad(t)) == Some(EncodeUtf8(text))
  {
    if DecodeCursor(Some(t)) == Some((a, b)) {
      var bytes := FromBase64(Pad(t)).value;
      var text := DecodeUtf8(bytes).value;
      Utf8EncodesDecoded(bytes);
      PairIff(text, a, b);
    }
    forall text | IsPairText(text, a, b) && FromBase64(Pad(t)) == Some(EncodeUtf8(text))
      ensures DecodeCursor(Some(t)) == Some((a, b))
    {
      Utf8DecodesEncoded(text);
      PairIff(text, a, b);
      assert text != [] && EncodeUtf8(text) != [];
      assert t == [] ==> Pad(t) == [];
    }
  }

  // ---------------------------------------------------------------------------------------------
  // Writing

  predicate IsLowerHex(c: char) {
    '0' <= c <= '9' || 'a' <= c <= 'f'
  }

  predicate IsAscii(x: string) {
    forall i :: 0 <= i < |x| ==> ' ' <= x[i] <= '~'
  }

  /** How each character is written: as itself, with its short escape if it has one, otherwise in lower-case
      hexadecimal. */
  lemma {:induction false} WrittenForm(c: char)
    ensures var x := EscapeChar(c);
            && IsPiece(x, c) && IsAscii(x)
            && (' ' <= c <= '~' && c != '"' && c != '\\' <==> x == [c])
            && (IsShortened(c) <==> |x| == 2)
            && (|x| > 2 ==> forall i :: 0 <= i < |x| && i % 6 > 1 ==> IsLowerHex(x[i]))
  {
    if c as int >= 0x10000 {
      PairWritten(c);
    } else if IsShortened(c) || ' ' <= c <= '~' {
      ShortWritten(c);
    } else {
      UnitWritten(c as int);
      assert EscapeChar(c) == EscapeUnit(c as int);
    }
  }

  predicate IsShortened(c: char) {
    c == '"' || c == '\\' || c as int == 8 || c as int == 9 || c as int == 10 || c as int == 12 || c as int == 13
  }

  lemma ShortWritten(c: char)
    requires IsShortened(c) || ' ' <= c <= '~'
    ensures var x := EscapeChar(c);
            IsPiece(x, c) && IsAscii(x) && |x| == (if IsShortened(c) then 2 else 1) && (|x| == 1 ==> x == [c])
  {
  }

  lemma PairWritten(c: char)
    requires c as int >= 0x10000
    ensures var x := EscapeChar(c);
            |x| == 12 && IsPiece(x, c) && IsAscii(x) && forall i :: 0 <= i < |x| && i % 6 > 1 ==> IsLowerHex(x[i])
  {
    var n := c as int;
    var hi, lo := 0xD800 + (n - 0x10000) / 0x400, 0xDC00 + (n - 0x10000) % 0x400;
    UnitWritten(hi);
    UnitWritten(lo);
    TwoUnits(EscapeUnit(hi), EscapeUnit(lo));
  }

  lemma TwoUnits(x: string, y: string)
    requires |x| == 6 && |y| == 6 && IsAscii(x) && IsAscii(y)
    requires forall i :: 2 <= i < 6 ==> IsLowerHex(x[i]) && IsLowerHex(y[i])
    ensures (x + y)[..6] == x && (x + y)[6..] == y && IsAscii(x + y)
    ensures forall i :: 0 <= i < 12 && i % 6 > 1 ==> IsLowerHex((x + y)[i])
  {
    forall i | 0 <= i < 12 && i % 6 > 1
      ensures IsLowerHex((x + y)[i])
    {
      assert i % 6 == if i < 6 then i else i - 6;
      assert (x + y)[i] == if i < 6 then x[i] else y[i - 6];
    }
  }

  lemma UnitWritten(u: Unit)
    ensures var x := EscapeUnit(u);
            IsUnit(x, u) && IsAscii(x) && forall i :: 2 <= i < 6 ==> IsLowerHex(x[i])
  {
  }

  /** A cursor consists of letters, digits, `-` and `_` and can stand in a URL as it is. */
  lemma {:induction false} CursorIsUrlSafe(updatedAt: string, sessionId: string)
    ensures forall i :: 0 <= i < |EncodeCursor(updatedAt, sessionId)| ==>
              IsUrlSafe(EncodeCursor(updatedAt, sessionId)[i])
  {
    var bytes := EncodeUtf8(PairText(updatedAt, sessionId));
    Base64Letters(bytes);
    Base64Shape(bytes);
    PaddingIsLast(bytes);
  }

  predicate IsUrlSafe(c: char) {
    'A' <= c <= 'Z' || 'a' <= c <= 'z' || '0' <= c <= '9' || c == '-' || c == '_'
  }

  /** Padding stands behind the letters only. */
  ghost predicate LettersThenPadding(t: string) {
    forall i :: 0 <= i < |t| ==> IsUrlSafe(t[i]) || (t[i] == '=' && forall j :: i < j < |t| ==> t[j] == '=')
  }

  lemma {:induction false} Base64Letters(b: seq<Byte>)
    ensures LettersThenPadding(Base64(b))
  {
    if |b| > 2 {
      Base64Letters(b[3..]);
      var group := [Letter(b[0] / 4), Letter(b[0] % 4 * 16 + b[1] / 16), Letter(b[1] % 16 * 4 + b[2] / 64),
                    Letter(b[2] % 64)];
      LettersFirst(group, Base64(b[3..]));
    }
  }

  lemma LettersFirst(group: string, rest: string)
    requires (forall i :: 0 <= i < |group| ==> IsUrlSafe(group[i])) && LettersThenPadding(rest)
    ensures LettersThenPadding(group + rest)
  {
    var t := group + rest;
    forall i | |group| <= i < |t|
      ensures IsUrlSafe(t[i]) || (t[i] == '=' && forall j :: i < j < |t| ==> t[j] == '=')
    {
      assert t[i] == rest[i - |group|];
    }
  }

  lemma PaddingIsLast(b: seq<Byte>)
    requires LettersThenPadding(Base64(b))
    ensures forall i :: 0 <= i < |StripPadding(Base64(b))| ==> IsUrlSafe(StripPadding(Base64(b))[i])
  {
    var t, r := Base64(b), StripPadding(Base64(b));
    forall i | 0 <= i < |r|
      ensures IsUrlSafe(r[i])
    {
      assert r[i] == t[i] && r[|r| - 1] == t[|r| - 1];
    }
  }

  function StandardLetter(c: char): char {
    if c == '-' then '+' else if c == '_' then '/' else c
  }

  function Standard(t: string): (r: string)
    ensures |r| == |t|
  {
    seq(|t|, i requires 0 <= i < |t| => StandardLetter(t[i]))
  }

  /** The letters of the standard alphabet are taken for those of the URL-safe one. */
  lemma {:induction false} EitherAlphabet(t: string)
    ensures FromBase64(Standard(t)) == FromBase64(t)
  {
    if |t| >= 4 {
      EitherAlphabet(t[4..]);
      assert Standard(t)[4..] == Standard(t[4..]);
      EitherGroup(t[0], t[1], t[2], t[3]);
    }
  }

  lemma EitherGroup(a: char, b: char, c: char, d: char)
    ensures ReadGroup(StandardLetter(a), StandardLetter(b), StandardLetter(c), StandardLetter(d)) ==
            ReadGroup(a, b, c, d)
  {
    SameValue(a);
    SameValue(b);
    SameValue(c);
    SameValue(d);
  }

  lemma SameValue(c: char)
    ensures LetterValue(StandardLetter(c)) == LetterValue(c) && (StandardLetter(c) == '=' <==> c == '=')
  {
  }
}
