/** UTF-8 (RFC 3629, section 3) and UTF-16 (RFC 2781, sections 2.1 and 2.2) over Unicode scalar values. */
module Unicode {
  import Collections
  import opened Wrappers

  type Byte = b: int | 0 <= b < 0x100

  // ---------------------------------------------------------------------------------------------
  // UTF-8

  function EncodeScalar(c: char): (r: seq<Byte>)
    ensures 1 <= |r| <= 4
  {
    var n := c as int;
    if n < 0x80 then [n]
    else if n < 0x800 then [0xC0 + n / 0x40, 0x80 + n % 0x40]
    else if n < 0x10000 then [0xE0 + n / 0x1000, 0x80 + n / 0x40 % 0x40, 0x80 + n % 0x40]
    else [0xF0 + n / 0x40000, 0x80 + n / 0x1000 % 0x40, 0x80 + n / 0x40 % 0x40, 0x80 + n % 0x40]
  }

  function EncodeUtf8(s: string): seq<Byte> {
    if s == [] then [] else EncodeScalar(s[0]) + EncodeUtf8(s[1..])
  }

  predicate IsTail(b: Byte) {
    0x80 <= b < 0xC0
  }

  /** The number spelt by six-bit groups after a leading group. */
  function Groups2(a: int, x: int): int { a * 0x40 + x }
  function Groups3(a: int, x: int, y: int): int { a * 0x1000 + x * 0x40 + y }
  function Groups4(a: int, x: int, y: int, z: int): int { a * 0x40000 + x * 0x1000 + y * 0x40 + z }

  /** The scalar value at the head of a byte sequence and its length; overlong forms, surrogates and values above
      U+10FFFF are refused. */
  function DecodeScalar(b: seq<Byte>): (r: Option<(char, nat)>)
    ensures r.Some? ==> 1 <= r.value.1 <= |b|
  {
    if b == [] then None
    else if b[0] < 0x80 then Some((b[0] as char, 1))
    else if 0xC2 <= b[0] < 0xE0 then
      if |b| >= 2 && IsTail(b[1]) then Some((Groups2(b[0] as int - 0xC0, b[1] as int - 0x80) as char, 2)) else None
    else if 0xE0 <= b[0] < 0xF0 then
      if |b| >= 3 && IsTail(b[1]) && IsTail(b[2]) then
        var n := Groups3(b[0] as int - 0xE0, b[1] as int - 0x80, b[2] as int - 0x80);
        if n < 0x800 || 0xD800 <= n < 0xE000 then None else Some((n as char, 3))
      else None
    else if 0xF0 <= b[0] < 0xF5 then
      if |b| >= 4 && IsTail(b[1]) && IsTail(b[2]) && IsTail(b[3]) then
        var n := Groups4(b[0] as int - 0xF0, b[1] as int - 0x80, b[2] as int - 0x80, b[3] as int - 0x80);
        if n < 0x10000 || n >= 0x110000 then None else Some((n as char, 4))
      else None
    else None
  }

  function DecodeUtf8(b: seq<Byte>): Option<string> {
    if b == [] then Some([])
    else
      match DecodeScalar(b)
      case None => None
      case Some((c, n)) =>
        match DecodeUtf8(b[n..])
        case None => None
        case Some(rest) => Some([c] + rest)
  }

  lemma Regroup(n: int)
    requires n >= 0
    ensures n == Groups2(n / 0x40, n % 0x40)
    ensures n == Groups3(n / 0x1000, n / 0x40 % 0x40, n % 0x40)
    ensures n == Groups4(n / 0x40000, n / 0x1000 % 0x40, n / 0x40 % 0x40, n % 0x40)
  {
    assert n / 0x40 / 0x40 == n / 0x1000;
    assert n / 0x1000 / 0x40 == n / 0x40000;
  }

  lemma Ungroup(a: int, x: int, y: int, z: int)
    requires a >= 0 && 0 <= x < 0x40 && 0 <= y < 0x40 && 0 <= z < 0x40
    ensures var n := Groups4(a, x, y, z);
            n / 0x40000 == a && n / 0x1000 % 0x40 == x && n / 0x40 % 0x40 == y && n % 0x40 == z
  {
    var n := Groups4(a, x, y, z);
    assert n == 0x40 * (a * 0x1000 + x * 0x40 + y) + z;
    assert n == 0x1000 * (a * 0x40 + x) + (y * 0x40 + z);
    assert n == 0x40000 * a + (x * 0x1000 + y * 0x40 + z);
  }

  lemma DecodeOfScalar(c: char, rest: seq<Byte>)
    ensures DecodeScalar(EncodeScalar(c) + rest) == Some((c, |EncodeScalar(c)|))
  {
    Regroup(c as int);
  }

  lemma ScalarOfDecode(b: seq<Byte>)
    requires DecodeScalar(b).Some?
    ensures var (c, n) := DecodeScalar(b).value; EncodeScalar(c) == b[..n]
  {
    var (c, n) := DecodeScalar(b).value;
    if n == 2 {
      TwoTails(b[0], b[1]);
    } else if n == 3 {
      ThreeTails(b[0], b[1], b[2]);
    } else if n == 4 {
      FourTails(b[0], b[1], b[2], b[3]);
    }
  }

  lemma TwoTails(b0: Byte, b1: Byte)
    requires DecodeScalar([b0, b1]).Some? && DecodeScalar([b0, b1]).value.1 == 2
    ensures EncodeScalar(DecodeScalar([b0, b1]).value.0) == [b0, b1]
  {
    Ungroup(0, 0, b0 as int - 0xC0, b1 as int - 0x80);
  }

  lemma ThreeTails(b0: Byte, b1: Byte, b2: Byte)
    requires DecodeScalar([b0, b1, b2]).Some? && DecodeScalar([b0, b1, b2]).value.1 == 3
    ensures EncodeScalar(DecodeScalar([b0, b1, b2]).value.0) == [b0, b1, b2]
  {
    Ungroup(0, b0 as int - 0xE0, b1 as int - 0x80, b2 as int - 0x80);
    assert (DecodeScalar([b0, b1, b2]).value.0 as int) / 0x1000 == b0 as int - 0xE0;
  }

  lemma FourTails(b0: Byte, b1: Byte, b2: Byte, b3: Byte)
    requires DecodeScalar([b0, b1, b2, b3]).Some? && DecodeScalar([b0, b1, b2, b3]).value.1 == 4
    ensures EncodeScalar(DecodeScalar([b0, b1, b2, b3]).value.0) == [b0, b1, b2, b3]
  {
    Ungroup(b0 as int - 0xF0, b1 as int - 0x80, b2 as int - 0x80, b3 as int - 0x80);
  }

  lemma {:induction false} Utf8DecodesEncoded(s: string)
    ensures DecodeUtf8(EncodeUtf8(s)) == Some(s)
  {
    if s != [] {
      DecodeOfScalar(s[0], EncodeUtf8(s[1..]));
      assert EncodeUtf8(s)[|EncodeScalar(s[0])|..] == EncodeUtf8(s[1..]);
      Utf8DecodesEncoded(s[1..]);
      assert s == [s[0]] + s[1..];
    }
  }

  lemma EncodeCons(c: char, rest: string)
    ensures EncodeUtf8([c] + rest) == EncodeScalar(c) + EncodeUtf8(rest)
  {
    assert ([c] + rest)[1..] == rest;
  }

  lemma {:induction false} Utf8EncodesDecoded(b: seq<Byte>)
    requires DecodeUtf8(b).Some?
    ensures EncodeUtf8(DecodeUtf8(b).value) == b
  {
    if b != [] {
      var (c, n) := DecodeScalar(b).value;
      var rest := DecodeUtf8(b[n..]).value;
      ScalarOfDecode(b);
      Utf8EncodesDecoded(b[n..]);
      EncodeCons(c, rest);
      Collections.Halves(b, n);
    }
  }

  // ---------------------------------------------------------------------------------------------
  // UTF-16

  type Unit = u: int | 0 <= u < 0x10000

  function UnitsOfScalar(c: char): (r: seq<Unit>)
    ensures 1 <= |r| <= 2
  {
    var n := c as int;
    if n < 0x10000 then [n]
    else [0xD800 + (n - 0x10000) / 0x400, 0xDC00 + (n - 0x10000) % 0x400]
  }

  function EncodeUtf16(s: string): seq<Unit> {
    if s == [] then [] else UnitsOfScalar(s[0]) + EncodeUtf16(s[1..])
  }

  function DecodeUnits(u: seq<Unit>): (r: Option<(char, nat)>)
    ensures r.Some? ==> 1 <= r.value.1 <= |u|
  {
    if u == [] then None
    else if u[0] < 0xD800 || u[0] >= 0xE000 then Some((u[0] as char, 1))
    else if u[0] < 0xDC00 && |u| >= 2 && 0xDC00 <= u[1] < 0xE000 then
      Some(((0x10000 + (u[0] as int - 0xD800) * 0x400 + (u[1] as int - 0xDC00)) as char, 2))
    else None
  }

  function DecodeUtf16(u: seq<Unit>): Option<string> {
    if u == [] then Some([])
    else
      match DecodeUnits(u)
      case None => None
      case Some((c, n)) =>
        match DecodeUtf16(u[n..])
        case None => None
        case Some(rest) => Some([c] + rest)
  }

  lemma {:induction false} Utf16DecodesEncoded(s: string)
    ensures DecodeUtf16(EncodeUtf16(s)) == Some(s)
  {
    if s != [] {
      var rest := EncodeUtf16(s[1..]);
      var u := EncodeUtf16(s);
      assert u == UnitsOfScalar(s[0]) + rest;
      assert DecodeUnits(u) == Some((s[0], |UnitsOfScalar(s[0])|));
      assert u[|UnitsOfScalar(s[0])|..] == rest;
      Utf16DecodesEncoded(s[1..]);
      assert s == [s[0]] + s[1..];
    }
  }

  lemma {:induction false} Utf16EncodesDecoded(u: seq<Unit>)
    requires DecodeUtf16(u).Some?
    ensures EncodeUtf16(DecodeUtf16(u).value) == u
  {
    if u != [] {
      var (c, n) := DecodeUnits(u).value;
      assert UnitsOfScalar(c) == u[..n];
      Utf16EncodesDecoded(u[n..]);
      var text := DecodeUtf16(u).value;
      assert text[0] == c && text[1..] == DecodeUtf16(u[n..]).value;
      assert u == u[..n] + u[n..];
    }
  }
}
