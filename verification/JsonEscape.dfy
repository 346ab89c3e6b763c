/** json_escape of src/archive/extraction_report.cpp, against a reader of JSON strings (section 7 of RFC 8259). */
module JsonEscape {
  import opened Options
  import opened ByteStrings
  import opened Utf8

  const BACKSLASH: byte := 92
  const QUOTE: byte := 34
  const LETTER_U: byte := 117
  const REPLACEMENT: nat := 0xFFFD

  // ----- A reader of string bodies

  function HexValue(b: byte): Option<nat> {
    if 48 <= b <= 57 then Some(b - 48)
    else if 97 <= b <= 102 then Some(b - 87)
    else if 65 <= b <= 70 then Some(b - 55)
    else None
  }

  function Hex4(t: Bytes, i: nat): Option<nat> {
    if i + 4 > |t| then None
    else
      var a :- HexValue(t[i]);
      var b :- HexValue(t[i + 1]);
      var c :- HexValue(t[i + 2]);
      var d :- HexValue(t[i + 3]);
      Some(((a * 16 + b) * 16 + c) * 16 + d)
  }

  /** The character that a two-byte escape stands for. */
  function ShortEscape(b: byte): Option<nat> {
    if b == 34 || b == 92 || b == 47 then Some(b)
    else if b == 98 then Some(8)
    else if b == 102 then Some(12)
    else if b == 110 then Some(10)
    else if b == 114 then Some(13)
    else if b == 116 then Some(9)
    else None
  }

  /** One character of a body, with the length it takes; None where the body is not legal. */
  function ReadChar(t: Bytes, i: nat): (r: Option<Lead>)
    requires i < |t|
    ensures r.Some? ==> r.value.len >= 1 && i + r.value.len <= |t|
  {
    if t[i] == 92 then
      if i + 1 >= |t| then None
      else if t[i + 1] != 117 then
        var c :- ShortEscape(t[i + 1]);
        Some(Lead(c, 2))
      else
        var v :- Hex4(t, i + 2);
        if Scalar(v) then Some(Lead(v, 6))
        else if v < 0xDC00 && i + 12 <= |t| && t[i + 6] == 92 && t[i + 7] == 117 then
          var w :- Hex4(t, i + 8);
          if 0xDC00 <= w < 0xE000 then Some(Lead(0x10000 + (v - 0xD800) * 1024 + (w - 0xDC00), 12)) else None
        else None
    else if t[i] == 34 || t[i] < 0x20 then None
    else DecodeAt(t, i)
  }

  /** The text of a string body: None when it is not legal JSON in valid UTF-8. */
  function Unescape(t: Bytes, i: nat): Option<seq<nat>>
    decreases |t| - i
  {
    if i >= |t| then Some([])
    else
      var c :- ReadChar(t, i);
      var rest :- Unescape(t, i + c.len);
      Some([c.code] + rest)
  }

  // ----- The writer

  function HexDigit(v: nat): byte
    requires v < 16
  {
    if v < 10 then 48 + v else 87 + v
  }

  function EscapeAscii(c: byte): Bytes {
    if c == QUOTE then [BACKSLASH, QUOTE]
    else if c == BACKSLASH then [BACKSLASH, BACKSLASH]
    else if c == 8 then [BACKSLASH, 98]
    else if c == 12 then [BACKSLASH, 102]
    else if c == 10 then [BACKSLASH, 110]
    else if c == 13 then [BACKSLASH, 114]
    else if c == 9 then [BACKSLASH, 116]
    else if c < 0x20 then [BACKSLASH, LETTER_U, 48, 48, HexDigit(c / 16), HexDigit(c % 16)]
    else [c]
  }

  /** The form of every ASCII escape: a letter where JSON has one, otherwise four lower-case hex digits. */
  lemma EscapeForms(c: byte)
    requires c < 0x80
    ensures EscapeAscii(c) ==
      if c == 34 || c == 92 then [92, c]
      else if 8 <= c <= 13 && c != 11 then [92, [98, 116, 110, 0, 102, 114][c - 8]]
      else if c < 32 then [92, 117, 48, 48, 48 + c / 16, if c % 16 < 10 then 48 + c % 16 else 97 + (c % 16 - 10)]
      else [c]
  {
  }

  const ESCAPED_REPLACEMENT: Bytes := [BACKSLASH, LETTER_U, 70, 70, 70, 68]

  /** What is written for the character or the ill-formed byte at i. */
  function Piece(s: Bytes, i: nat): Bytes
    requires i < |s|
  {
    if s[i] < 0x80 then EscapeAscii(s[i])
    else match DecodeAt(s, i)
      case Some(l) => s[i..i + l.len]
      case None => ESCAPED_REPLACEMENT
  }

  function Advance(s: Bytes, i: nat): (n: nat)
    requires i < |s|
    ensures 1 <= n && i + n <= |s|
  {
    match DecodeAt(s, i) case Some(l) => l.len case None => 1
  }

  function EscapeFrom(s: Bytes, i: nat): Bytes
    decreases |s| - i
  {
    if i >= |s| then [] else Piece(s, i) + EscapeFrom(s, i + Advance(s, i))
  }

  /** The multi-byte branch of json_escape: the length of the sequence at i, 0 when it is ill-formed. */
  method MultiByteAt(s: Bytes, i: nat) returns (length: nat)
    requires i < |s| && s[i] >= 0x80
    ensures length == match DecodeAt(s, i) case None => 0 case Some(l) => l.len
  {
    hide Partial, Assemble, Low;
    var c := s[i];
    var len := if 0xC2 <= c <= 0xDF then 2 else if 0xE0 <= c <= 0xEF then 3 else if 0xF0 <= c <= 0xF4 then 4 else 0;
    var ok := len > 0 && i + len <= |s|;
    var k := 1;
    while ok && k < len
      invariant 1 <= k && (len > 0 ==> k <= len)
      invariant ok ==> len > 0 && i + len <= |s| && Continues(s, i, k)
      invariant !ok ==> len == 0 || i + len > |s| || !Continues(s, i, len)
      decreases ok, len - k
    {
      if !Cont(s[i + k]) { ok := false; } else { k := k + 1; }
    }
    if !ok { return 0; }
    var cp := Partial(s, i, len - 1, 1);
    k := 1;
    while k < len
      invariant 1 <= k <= len && cp == Partial(s, i, len - 1, k)
    {
      PartialStep(s, i, len - 1, k);
      cp := cp * 64 + Low(s[i + k], 64);
      k := k + 1;
    }
    PartialWhole(s, i, len - 1);
    length := if cp > 0x10FFFF || 0xD800 <= cp <= 0xDFFF || cp < Minimum(len) then 0 else len;
  }

  /** json_escape. */
  method Escape(s: Bytes) returns (out: Bytes)
    ensures out == EscapeFrom(s, 0)
  {
    hide DecodeAt, EscapeAscii, EscapeFrom;
    EscapeEnd(s);
    out := [];
    var i := 0;
    while i < |s|
      invariant 0 <= i <= |s| && out + EscapeFrom(s, i) == EscapeFrom(s, 0)
    {
      EscapeStep(s, i, out);
      if s[i] < 0x80 {
        Ascii(s, i);
        out := out + EscapeAscii(s[i]);
        i := i + 1;
      } else {
        var len := MultiByteAt(s, i);
        if len > 0 {
          out := out + s[i..i + len];
          i := i + len;
        } else {
          out := out + ESCAPED_REPLACEMENT;
          i := i + 1;
        }
      }
    }
  }

  lemma EscapeStep(s: Bytes, i: nat, out: Bytes)
    requires i < |s|
    ensures out + EscapeFrom(s, i) == out + Piece(s, i) + EscapeFrom(s, i + Advance(s, i))
  {
    hide Piece, Advance;
    assert out + (Piece(s, i) + EscapeFrom(s, i + Advance(s, i))) ==
      out + Piece(s, i) + EscapeFrom(s, i + Advance(s, i));
  }

  lemma EscapeEnd(s: Bytes)
    ensures EscapeFrom(s, |s|) == [] && [] + EscapeFrom(s, 0) == EscapeFrom(s, 0)
  {
  }

  // ----- Round trip

  /** The text of an arbitrary byte string: each byte that starts no well-formed sequence becomes U+FFFD. */
  function Repair(s: Bytes, i: nat): seq<nat>
    decreases |s| - i
  {
    if i >= |s| then []
    else [match DecodeAt(s, i) case Some(l) => l.code case None => REPLACEMENT] + Repair(s, i + Advance(s, i))
  }

  lemma HexPair(c: nat)
    requires c < 0x20
    ensures HexValue(HexDigit(c / 16)) == Some(c / 16) && HexValue(HexDigit(c % 16)) == Some(c % 16)
  {
  }

  lemma SameBytes(t: Bytes, p: nat, piece: Bytes)
    requires HasAt(t, p, piece)
    ensures forall k :: 0 <= k < |piece| ==> t[p + k] == piece[k]
  {
    forall k | 0 <= k < |piece| ensures t[p + k] == piece[k] { assert t[p..p + |piece|][k] == piece[k]; }
  }

  lemma AsciiPieceReads(t: Bytes, p: nat, c: byte)
    requires c < 0x80 && HasAt(t, p, EscapeAscii(c))
    ensures p < |t| && ReadChar(t, p) == Some(Lead(c, |EscapeAscii(c)|))
  {
    hide DecodeAt;
    var e := EscapeAscii(c);
    SameBytes(t, p, e);
    assert t[p + 0] == e[0];
    if |e| == 1 {
      Ascii(t, p);
    } else {
      assert t[p + 1] == e[1];
      if |e| == 6 {
        assert t[p + 2] == e[2] && t[p + 3] == e[3] && t[p + 4] == e[4] && t[p + 5] == e[5];
        HexPair(c);
      }
    }
  }

  lemma ReplacementReads(t: Bytes, p: nat)
    requires HasAt(t, p, ESCAPED_REPLACEMENT)
    ensures p < |t| && ReadChar(t, p) == Some(Lead(REPLACEMENT, 6))
  {
    var e := ESCAPED_REPLACEMENT;
    SameBytes(t, p, e);
    assert t[p + 0] == e[0] && t[p + 1] == e[1] && t[p + 2] == e[2] && t[p + 3] == e[3] && t[p + 4] == e[4] &&
      t[p + 5] == e[5];
  }

  /** Every piece written is read back as the character it was written for. */
  lemma PieceReads(s: Bytes, i: nat, t: Bytes, p: nat)
    requires i < |s| && HasAt(t, p, Piece(s, i))
    ensures p < |t|
    ensures ReadChar(t, p) ==
        Some(Lead(match DecodeAt(s, i) case Some(l) => l.code case None => REPLACEMENT, |Piece(s, i)|))
  {
    hide DecodeAt, EscapeAscii, Encode;
    if s[i] < 0x80 {
      Ascii(s, i);
      AsciiPieceReads(t, p, s[i]);
    } else {
      match DecodeAt(s, i)
      case None => ReplacementReads(t, p);
      case Some(l) =>
        AssembleEncodes(s, i);
        DecodeExact(t, p, l.code);
        assert t[p] == t[p..p + l.len][0] == s[i];
    }
  }

  lemma {:induction false} UnescapeFrom(s: Bytes, i: nat, t: Bytes, p: nat)
    requires p <= |t| && t[p..] == EscapeFrom(s, i)
    ensures Unescape(t, p) == Some(Repair(s, i))
    decreases |s| - i
  {
    hide ReadChar, Piece, Advance;
    if i < |s| {
      var piece, rest := Piece(s, i), EscapeFrom(s, i + Advance(s, i));
      assert t[p..] == piece + rest;
      assert t[p..p + |piece|] == t[p..][..|piece|] == piece;
      PieceReads(s, i, t, p);
      assert t[p + |piece|..] == t[p..][|piece|..] == rest;
      UnescapeFrom(s, i + Advance(s, i), t, p + |piece|);
    }
  }

  /** Reading the escaped form back gives the input, with every ill-formed byte replaced. */
  lemma EscapeRoundTrip(s: Bytes)
    ensures Unescape(EscapeFrom(s, 0), 0) == Some(Repair(s, 0))
  {
    assert EscapeFrom(s, 0)[0..] == EscapeFrom(s, 0);
    UnescapeFrom(s, 0, EscapeFrom(s, 0), 0);
  }

  // ----- The escaped form is valid UTF-8

  lemma WellFormedCons(t: Bytes, i: nat, c: nat)
    requires Scalar(c) && HasAt(t, i, Encode(c)) && WellFormed(t[i + |Encode(c)|..])
    ensures WellFormed(t[i..])
  {
    hide Encode;
    var rest := t[i + |Encode(c)|..];
    var cs :| Scalars(cs) && EncodeAll(cs) == rest;
    assert ([c] + cs)[1..] == cs;
    assert t[i..] == t[i..i + |Encode(c)|] + rest;
    Witness(t[i..], [c] + cs);
  }

  lemma {:induction false} AsciiRun(t: Bytes, i: nat, n: nat)
    requires i + n <= |t| && (forall k :: i <= k < i + n ==> t[k] < 0x80) && WellFormed(t[i + n..])
    ensures WellFormed(t[i..])
    decreases n
  {
    hide WellFormed;
    if n > 0 {
      AsciiRun(t, i + 1, n - 1);
      assert HasAt(t, i, Encode(t[i]));
      WellFormedCons(t, i, t[i]);
    }
  }

  lemma HexIsAscii(t: Bytes, i: nat)
    requires Hex4(t, i).Some?
    ensures i + 4 <= |t| && t[i] < 0x80 && t[i + 1] < 0x80 && t[i + 2] < 0x80 && t[i + 3] < 0x80
  {
  }

  lemma EscapesAreAscii(t: Bytes, i: nat)
    requires i < |t| && ReadChar(t, i).Some? && t[i] == BACKSLASH
    ensures forall k :: i <= k < i + ReadChar(t, i).value.len ==> t[k] < 0x80
  {
    hide DecodeAt, Hex4;
    var len := ReadChar(t, i).value.len;
    if len >= 6 { HexIsAscii(t, i + 2); }
    if len == 12 { HexIsAscii(t, i + 8); }
  }

  /** Whatever the reader accepts is well-formed UTF-8. */
  lemma {:induction false} AcceptedIsWellFormed(t: Bytes, i: nat)
    requires i <= |t| && Unescape(t, i).Some?
    ensures WellFormed(t[i..])
    decreases |t| - i
  {
    hide WellFormed, DecodeAt, Hex4, Encode;
    if i == |t| {
      EmptyWellFormed();
      assert t[i..] == [];
      Witness([], []);
    } else {
      var c := ReadChar(t, i).value;
      AcceptedIsWellFormed(t, i + c.len);
      if t[i] == BACKSLASH {
        EscapesAreAscii(t, i);
        AsciiRun(t, i, c.len);
      } else {
        AssembleEncodes(t, i);
        WellFormedCons(t, i, c.code);
      }
    }
  }

  /** json_escape always writes a legal string body in valid UTF-8. */
  lemma EscapedIsWellFormed(s: Bytes)
    ensures WellFormed(EscapeFrom(s, 0))
  {
    hide *;
    EscapeRoundTrip(s);
    AcceptedIsWellFormed(EscapeFrom(s, 0), 0);
    assert EscapeFrom(s, 0)[0..] == EscapeFrom(s, 0);
  }

  // ----- Nothing is lost on well-formed text

  lemma RepairStep(s: Bytes, i: nat)
    requires i < |s| && DecodeAt(s, i).Some?
    ensures var l := DecodeAt(s, i).value; Repair(s, i) == [l.code] + Repair(s, i + l.len)
  {
    hide DecodeAt;
  }

  lemma RepairEnd(s: Bytes)
    ensures Repair(s, |s|) == [] && Scalars([]) && EncodeAll([]) == []
  {
  }

  lemma EncodeCons(c: nat, cs: seq<nat>)
    requires Scalar(c) && Scalars(cs)
    ensures Scalars([c] + cs) && EncodeAll([c] + cs) == Encode(c) + EncodeAll(cs)
  {
    hide Encode;
    assert ([c] + cs)[1..] == cs;
  }

  lemma {:induction false} RepairKeeps(s: Bytes, i: nat)
    requires i <= |s| && WellFormed(s[i..])
    ensures Scalars(Repair(s, i)) && EncodeAll(Repair(s, i)) == s[i..]
    decreases |s| - i
  {
    hide WellFormed, DecodeAt, Encode, EncodeAll, Repair, Scalars, Scalar;
    if i == |s| {
      RepairEnd(s);
      assert s[i..] == [];
    } else {
      WellFormedStep(s, i);
      AssembleEncodes(s, i);
      var l := DecodeAt(s, i).value;
      RepairKeeps(s, i + l.len);
      RepairStep(s, i);
      EncodeCons(l.code, Repair(s, i + l.len));
      assert s[i..] == s[i..i + l.len] + s[i + l.len..];
    }
  }

  /** Different well-formed texts have different escaped forms. */
  lemma EscapeInjective(s: Bytes, t: Bytes)
    requires WellFormed(s) && WellFormed(t) && EscapeFrom(s, 0) == EscapeFrom(t, 0)
    ensures s == t
  {
    hide *;
    EscapeRoundTrip(s);
    EscapeRoundTrip(t);
    assert s[0..] == s && t[0..] == t;
    RepairKeeps(s, 0);
    RepairKeeps(t, 0);
  }
}
