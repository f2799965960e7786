/** Reading a file as text and writing it back in the encoding it was found in
    (rust/synapse-core-tool/src/file_access.rs). */
module FileEncoding {
  import Collections
  import opened Wrappers
  import opened Unicode

  /** `FileEncoding` as far as detection settles it without guessing. */
  datatype Encoding = Utf8(hasBom: bool) | Utf16(littleEndian: bool, hasBom: bool)

  /** `NeedsGuess` stands for the statistical detector, which is not modelled. */
  datatype Detected = Text(text: string, encoding: Encoding) | Invalid | NeedsGuess

  const UTF8_BOM: seq<Byte> := [0xEF, 0xBB, 0xBF]

  function Utf16Bom(littleEndian: bool): seq<Byte> {
    if littleEndian then [0xFF, 0xFE] else [0xFE, 0xFF]
  }

  function UnitBytes(u: Unit, littleEndian: bool): (r: seq<Byte>)
    ensures |r| == 2
  {
    if littleEndian then [u % 0x100, u / 0x100] else [u / 0x100, u % 0x100]
  }

  function BytesOfUnits(units: seq<Unit>, littleEndian: bool): seq<Byte> {
    if units == [] then []
    else BytesOfUnits(units[..|units| - 1], littleEndian) + UnitBytes(units[|units| - 1], littleEndian)
  }

  function UnitOf(first: Byte, second: Byte, littleEndian: bool): Unit {
    if littleEndian then second as int * 0x100 + first as int else first as int * 0x100 + second as int
  }

  /** Pairs of bytes as units; a byte left over at the end is an error. */
  function UnitsOfBytes(b: seq<Byte>, littleEndian: bool): Option<seq<Unit>> {
    if b == [] then Some([])
    else if |b| == 1 then None
    else
      var n := |b|;
      match UnitsOfBytes(b[..n - 2], littleEndian)
      case None => None
      case Some(units) => Some(units + [UnitOf(b[n - 2], b[n - 1], littleEndian)])
  }

  function Encode(encoding: Encoding, text: string): seq<Byte> {
    match encoding
    case Utf8(bom) => (if bom then UTF8_BOM else []) + EncodeUtf8(text)
    case Utf16(le, bom) => (if bom then Utf16Bom(le) else []) + BytesOfUnits(EncodeUtf16(text), le)
  }

  /** The bytes are the code units, two bytes each. */
  ghost predicate Spells(b: seq<Byte>, units: seq<Unit>, littleEndian: bool) {
    && |b| == 2 * |units|
    && forall k :: 0 <= k < |units| ==>
         units[k] == if littleEndian then b[2 * k] as int + 0x100 * b[2 * k + 1] as int
                     else 0x100 * b[2 * k] as int + b[2 * k + 1] as int
  }

  lemma {:induction false} UnitsAre(b: seq<Byte>, le: bool)
    requires UnitsOfBytes(b, le).Some?
    ensures Spells(b, UnitsOfBytes(b, le).value, le)
  {
    if b != [] {
      var n := |b|;
      UnitsAre(b[..n - 2], le);
      SpellsMore(b, UnitsOfBytes(b[..n - 2], le).value, UnitOf(b[n - 2], b[n - 1], le), le);
    }
  }

  lemma SpellsMore(b: seq<Byte>, units: seq<Unit>, last: Unit, le: bool)
    requires |b| >= 2 && Spells(b[..|b| - 2], units, le) && last == UnitOf(b[|b| - 2], b[|b| - 1], le)
    ensures Spells(b, units + [last], le)
  {
    var more := units + [last];
    forall k | 0 <= k < |more|
      ensures more[k] == if le then b[2 * k] as int + 0x100 * b[2 * k + 1] as int
                         else 0x100 * b[2 * k] as int + b[2 * k + 1] as int
    {
      if k < |units| { assert b[2 * k] == b[..|b| - 2][2 * k] && b[2 * k + 1] == b[..|b| - 2][2 * k + 1]; }
    }
  }

  lemma UnitRoundTrip(u: Unit, le: bool)
    ensures UnitOf(UnitBytes(u, le)[0], UnitBytes(u, le)[1], le) == u
  {
  }

  lemma {:induction false} UnitsOfEncoded(units: seq<Unit>, le: bool)
    ensures UnitsOfBytes(BytesOfUnits(units, le), le) == Some(units)
  {
    if units != [] {
      var n := |units| - 1;
      var front := BytesOfUnits(units[..n], le);
      var pair := UnitBytes(units[n], le);
      assert (front + pair)[..|front + pair| - 2] == front;
      UnitsOfEncoded(units[..n], le);
      UnitRoundTrip(units[n], le);
      assert units == units[..n] + [units[n]];
    }
  }

  lemma BytesSpell(units: seq<Unit>, littleEndian: bool)
    ensures Spells(BytesOfUnits(units, littleEndian), units, littleEndian)
  {
    UnitsOfEncoded(units, littleEndian);
    UnitsAre(BytesOfUnits(units, littleEndian), littleEndian);
  }

  /** The mark FF FE or FE FF if there is to be one, and then the code units of the text. */
  ghost predicate IsUtf16File(b: seq<Byte>, text: string, hasBom: bool, littleEndian: bool) {
    if !hasBom then Spells(b, EncodeUtf16(text), littleEndian)
    else
      && |b| >= 2 && b[0] == (if littleEndian then 0xFF else 0xFE) && b[1] == (if littleEndian then 0xFE else 0xFF)
      && Spells(b[2..], EncodeUtf16(text), littleEndian)
  }

  lemma EncodedSpells(text: string, hasBom: bool, littleEndian: bool)
    ensures IsUtf16File(Encode(Utf16(littleEndian, hasBom), text), text, hasBom, littleEndian)
  {
    var units := EncodeUtf16(text);
    BytesSpell(units, littleEndian);
    if hasBom {
      Collections.Behind(Utf16Bom(littleEndian), BytesOfUnits(units, littleEndian));
    } else {
      assert [] + BytesOfUnits(units, littleEndian) == BytesOfUnits(units, littleEndian);
    }
  }

  lemma EncodedWhole(text: string, hasBom: bool, littleEndian: bool, start: seq<Byte>, output: seq<Byte>)
    requires start == if hasBom then Utf16Bom(littleEndian) else []
    requires output == start + BytesOfUnits(EncodeUtf16(text)[..|EncodeUtf16(text)|], littleEndian)
    ensures output == Encode(Utf16(littleEndian, hasBom), text)
  {
    assert EncodeUtf16(text)[..|EncodeUtf16(text)|] == EncodeUtf16(text);
  }

  /** `encode_utf16` */
  method EncodeUtf16Bytes(text: string, hasBom: bool, littleEndian: bool) returns (output: seq<Byte>)
    ensures output == Encode(Utf16(littleEndian, hasBom), text)
    ensures IsUtf16File(output, text, hasBom, littleEndian)
  {
    output := [];
    if hasBom {
      output := output + Utf16Bom(littleEndian);
    }
    ghost var start := output;
    var units := EncodeUtf16(text);
    assert start + BytesOfUnits(units[..0], littleEndian) == start;
    for i := 0 to |units|
      invariant output == start + BytesOfUnits(units[..i], littleEndian)
    {
      OneMoreUnit(start, units, i, littleEndian);
      output := output + UnitBytes(units[i], littleEndian);
    }
    EncodedWhole(text, hasBom, littleEndian, start, output);
    EncodedSpells(text, hasBom, littleEndian);
  }

  lemma OneMoreUnit(start: seq<Byte>, units: seq<Unit>, i: nat, le: bool)
    requires i < |units|
    ensures start + BytesOfUnits(units[..i], le) + UnitBytes(units[i], le) == start + BytesOfUnits(units[..i + 1], le)
  {
    assert units[..i + 1][..i] == units[..i];
    Collections.Associate(start, BytesOfUnits(units[..i], le), UnitBytes(units[i], le));
  }

  /** `decode_utf16`, on the bytes after the byte order mark */
  function DecodeUtf16Bytes(b: seq<Byte>, littleEndian: bool): Detected {
    match UnitsOfBytes(b, littleEndian)
    case None => Invalid
    case Some(units) =>
      match DecodeUtf16(units)
      case None => Invalid
      case Some(text) => Text(text, Utf16(littleEndian, true))
  }

  /** `detect_and_decode` */
  function DetectAndDecode(b: seq<Byte>): Detected {
    if UTF8_BOM <= b then
      match DecodeUtf8(b[3..])
      case None => Invalid
      case Some(text) => Text(text, Utf8(true))
    else if Utf16Bom(true) <= b then DecodeUtf16Bytes(b[2..], true)
    else if Utf16Bom(false) <= b then DecodeUtf16Bytes(b[2..], false)
    else
      match DecodeUtf8(b)
      case None => NeedsGuess
      case Some(text) => Text(text, Utf8(false))
  }

  // ---------------------------------------------------------------------------------------------

  lemma BytesRoundTrip(first: Byte, second: Byte, le: bool)
    ensures UnitBytes(UnitOf(first, second, le), le) == [first, second]
  {
  }

  lemma {:induction false} BytesOfDecoded(b: seq<Byte>, le: bool)
    requires UnitsOfBytes(b, le).Some?
    ensures BytesOfUnits(UnitsOfBytes(b, le).value, le) == b
  {
    if b != [] {
      var n := |b|;
      var front := UnitsOfBytes(b[..n - 2], le).value;
      var last := UnitOf(b[n - 2], b[n - 1], le);
      BytesOfDecoded(b[..n - 2], le);
      BytesRoundTrip(b[n - 2], b[n - 1], le);
      BytesOfMore(front, last, le);
      LastTwo(b);
    }
  }

  lemma BytesOfMore(front: seq<Unit>, last: Unit, le: bool)
    ensures BytesOfUnits(front + [last], le) == BytesOfUnits(front, le) + UnitBytes(last, le)
  {
    assert (front + [last])[..|front|] == front;
  }

  lemma LastTwo(b: seq<Byte>)
    requires |b| >= 2
    ensures b == b[..|b| - 2] + [b[|b| - 2], b[|b| - 1]]
  {
  }

  // ---------------------------------------------------------------------------------------------
  // Main results

  /** Whatever is accepted as UTF-8 or as marked UTF-16 is written back byte for byte. */
  lemma {:induction false} EncodeUndoesDetect(b: seq<Byte>)
    ensures var d := DetectAndDecode(b); d.Text? ==> Encode(d.encoding, d.text) == b
  {
    if UTF8_BOM <= b {
      MarkedUtf8Undone(b);
    } else if Utf16Bom(true) <= b {
      MarkedUtf16Undone(b, true);
    } else if Utf16Bom(false) <= b {
      MarkedUtf16Undone(b, false);
    } else if DecodeUtf8(b).Some? {
      Utf8EncodesDecoded(b);
      assert [] + b == b;
    }
  }

  lemma MarkedUtf8Undone(b: seq<Byte>)
    requires UTF8_BOM <= b
    ensures DecodeUtf8(b[3..]).Some? ==> Encode(Utf8(true), DecodeUtf8(b[3..]).value) == b
  {
    if DecodeUtf8(b[3..]).Some? {
      Utf8EncodesDecoded(b[3..]);
      assert b == UTF8_BOM + b[3..];
    }
  }

  lemma MarkedUtf16Undone(b: seq<Byte>, le: bool)
    requires Utf16Bom(le) <= b
    ensures var d := DecodeUtf16Bytes(b[2..], le); d.Text? ==> Encode(d.encoding, d.text) == b
  {
    if DecodeUtf16Bytes(b[2..], le).Text? {
      Utf16EncodesDecoded(UnitsOfBytes(b[2..], le).value);
      BytesOfDecoded(b[2..], le);
      assert b == Utf16Bom(le) + b[2..];
    }
  }

  /** Which bytes mean which text: after FF FE every two bytes are a UTF-16 code unit with the low byte first, after
      FE FF with the high byte first; after EF BB BF the rest is UTF-8. */
  lemma {:induction false} MarksAreRead(b: seq<Byte>)
    requires DetectAndDecode(b).Text? && |b| >= 2
    ensures var d := DetectAndDecode(b);
            var units := EncodeUtf16(d.text);
            && (b[0] == 0xFF && b[1] == 0xFE ==>
                  && d.encoding == Utf16(true, true) && |b| == 2 + 2 * |units|
                  && forall k :: 0 <= k < |units| ==> units[k] == b[2 + 2 * k] as int + 0x100 * b[3 + 2 * k] as int)
            && (b[0] == 0xFE && b[1] == 0xFF ==>
                  && d.encoding == Utf16(false, true) && |b| == 2 + 2 * |units|
                  && forall k :: 0 <= k < |units| ==> units[k] == 0x100 * b[2 + 2 * k] as int + b[3 + 2 * k] as int)
            && (|b| >= 3 && b[0] == 0xEF && b[1] == 0xBB && b[2] == 0xBF ==>
                  d.encoding == Utf8(true) && EncodeUtf8(d.text) == b[3..])
            && (b[0] < 0xFE && !(|b| >= 3 && b[0] == 0xEF && b[1] == 0xBB && b[2] == 0xBF) ==>
                  d.encoding == Utf8(false) && EncodeUtf8(d.text) == b)
  {
    if b[0] >= 0xFE && (Utf16Bom(true) <= b || Utf16Bom(false) <= b) {
      MarkedUnits(b, Utf16Bom(true) <= b);
      SpeltBehindMark(b, EncodeUtf16(DetectAndDecode(b).text), Utf16Bom(true) <= b);
    } else if UTF8_BOM <= b {
      Utf8EncodesDecoded(b[3..]);
    } else {
      Utf8EncodesDecoded(b);
    }
  }

  lemma MarkedUnits(b: seq<Byte>, le: bool)
    requires Utf16Bom(le) <= b && DetectAndDecode(b).Text? && !(UTF8_BOM <= b) && (!le ==> !(Utf16Bom(true) <= b))
    ensures var d := DetectAndDecode(b);
            var units := EncodeUtf16(d.text);
            d.encoding == Utf16(le, true) && Spells(b[2..], units, le)
  {
    UnitsAre(b[2..], le);
    Utf16EncodesDecoded(UnitsOfBytes(b[2..], le).value);
  }

  lemma SpeltBehindMark(b: seq<Byte>, units: seq<Unit>, le: bool)
    requires |b| >= 2 && Spells(b[2..], units, le)
    ensures |b| == 2 + 2 * |units|
    ensures forall k :: 0 <= k < |units| ==>
              units[k] == if le then b[2 + 2 * k] as int + 0x100 * b[3 + 2 * k] as int
                          else 0x100 * b[2 + 2 * k] as int + b[3 + 2 * k] as int
  {
    var rest := b[2..];
    forall k | 0 <= k < |units|
      ensures units[k] == if le then b[2 + 2 * k] as int + 0x100 * b[3 + 2 * k] as int
                          else 0x100 * b[2 + 2 * k] as int + b[3 + 2 * k] as int
    {
      assert rest[2 * k] == b[2 + 2 * k] && rest[2 * k + 1] == b[3 + 2 * k];
    }
  }

  /** Text written with a byte order mark is read back as the same text in the same encoding. */
  lemma {:induction false} DetectUndoesMarkedEncode(encoding: Encoding, text: string)
    requires encoding.hasBom
    ensures DetectAndDecode(Encode(encoding, text)) == Text(text, encoding)
  {
    match encoding
    case Utf8(_) =>
      Collections.Behind(UTF8_BOM, EncodeUtf8(text));
      Utf8DecodesEncoded(text);
    case Utf16(le, _) =>
      var units := EncodeUtf16(text);
      UnitsOfEncoded(units, le);
      Utf16DecodesEncoded(text);
      MarkedUtf16Read(BytesOfUnits(units, le), le);
  }

  lemma MarkedUtf16Read(rest: seq<Byte>, le: bool)
    ensures DetectAndDecode(Utf16Bom(le) + rest) == DecodeUtf16Bytes(rest, le)
  {
    Collections.Behind(Utf16Bom(le), rest);
    assert (Utf16Bom(le) + rest)[0] == Utf16Bom(le)[0];
  }

  predicate IsMarked(b: seq<Byte>) {
    || (|b| >= 3 && b[0] == 0xEF && b[1] == 0xBB && b[2] == 0xBF)
    || (|b| >= 2 && ((b[0] == 0xFF && b[1] == 0xFE) || (b[0] == 0xFE && b[1] == 0xFF)))
  }

  /** Bytes are refused exactly when they begin with a mark and encode no text in that way; the encoding is guessed
      exactly when there is no mark and they are not UTF-8. */
  lemma {:induction false} RefusedIff(b: seq<Byte>)
    ensures DetectAndDecode(b).Invalid? <==>
            IsMarked(b) && forall e: Encoding, text :: e.hasBom ==> Encode(e, text) != b
    ensures DetectAndDecode(b).NeedsGuess? <==> !IsMarked(b) && forall text :: EncodeUtf8(text) != b
  {
    forall e: Encoding, text | e.hasBom && Encode(e, text) == b
      ensures DetectAndDecode(b).Text? && IsMarked(b)
    {
      DetectUndoesMarkedEncode(e, text);
    }
    forall text | EncodeUtf8(text) == b
      ensures DecodeUtf8(b).Some?
    {
      Utf8DecodesEncoded(text);
    }
    if DecodeUtf8(b).Some? { Utf8EncodesDecoded(b); }
    EncodeUndoesDetect(b);
  }

  /** Unmarked UTF-8 text is read back as itself exactly when it does not begin with U+FEFF, which would be taken
      for a byte order mark. */
  lemma {:induction false} DetectUndoesPlainEncodeIff(text: string)
    ensures DetectAndDecode(Encode(Utf8(false), text)) == Text(text, Utf8(false)) <==>
            !(text != [] && text[0] == '\U{FEFF}')
  {
    var b := EncodeUtf8(text);
    assert Encode(Utf8(false), text) == b;
    Utf8DecodesEncoded(text);
    if text != [] { LooksMarkedIff(text[0], EncodeUtf8(text[1..])); }
  }

  /** No character but U+FEFF begins with the bytes of the mark, and none begins with a byte of the other marks. */
  lemma LooksMarkedIff(c: char, rest: seq<Byte>)
    ensures var b := EncodeScalar(c) + rest;
            b[0] < 0xF5 && (UTF8_BOM <= b <==> c == '\U{FEFF}')
  {
    var head := EncodeScalar(c);
    var b := head + rest;
    DecodeOfScalar(c, rest);
    assert b[0] == head[0] && head[0] < 0xF5;
    assert UTF8_BOM <= b ==> b[0] == 0xEF && b[1] == 0xBB && b[2] == 0xBF;
    assert c == '\U{FEFF}' ==> head == UTF8_BOM && b[..3] == UTF8_BOM;
  }
}
