/** UTF-8 as section 3 of RFC 3629 defines it, and the two validators: is_valid_utf8 (src/core/types.hpp) and the
    one inside json_escape (src/archive/extraction_report.cpp). */
module Utf8 {
  import opened Options
  import opened ByteStrings

  // ----- The standard

  predicate Scalar(c: nat) { c < 0xD800 || 0xE000 <= c <= 0x10FFFF }

  function Encode(c: nat): (e: Bytes)
    requires Scalar(c)
    ensures 1 <= |e| <= 4
  {
    if c < 0x80 then [c]
    else if c < 0x800 then [0xC0 + c / 64, 0x80 + c % 64]
    else if c < 0x10000 then [0xE0 + c / 4096, 0x80 + c / 64 % 64, 0x80 + c % 64]
    else [0xF0 + c / 262144, 0x80 + c / 4096 % 64, 0x80 + c / 64 % 64, 0x80 + c % 64]
  }

  predicate Scalars(cs: seq<nat>) { forall i :: 0 <= i < |cs| ==> Scalar(cs[i]) }

  function EncodeAll(cs: seq<nat>): Bytes
    requires Scalars(cs)
  {
    if cs == [] then [] else Encode(cs[0]) + EncodeAll(cs[1..])
  }

  ghost predicate WellFormed(s: Bytes) { exists cs :: Scalars(cs) && EncodeAll(cs) == s }

  // ----- Decoding one character

  predicate Cont(b: byte) { 0x80 <= b < 0xC0 }

  function Length(lead: byte): nat {
    if lead < 0x80 then 1
    else if 0xC2 <= lead <= 0xDF then 2
    else if 0xE0 <= lead <= 0xEF then 3
    else if 0xF0 <= lead <= 0xF4 then 4
    else 0
  }

  /** The low bits of a byte. */
  function Low(b: byte, modulus: nat): nat
    requires modulus > 0
  {
    b % modulus
  }

  /** The number that the bits of a sequence of the given length make. */
  function Assemble(s: Bytes, i: nat, len: nat): nat
    requires i + len <= |s| && 1 <= len <= 4
  {
    if len == 1 then s[i]
    else if len == 2 then Low(s[i], 32) * 64 + Low(s[i + 1], 64)
    else if len == 3 then (Low(s[i], 16) * 64 + Low(s[i + 1], 64)) * 64 + Low(s[i + 2], 64)
    else ((Low(s[i], 8) * 64 + Low(s[i + 1], 64)) * 64 + Low(s[i + 2], 64)) * 64 + Low(s[i + 3], 64)
  }

  predicate Continues(s: Bytes, i: nat, len: nat)
    requires i + len <= |s|
  {
    (len >= 2 ==> Cont(s[i + 1])) && (len >= 3 ==> Cont(s[i + 2])) && (len >= 4 ==> Cont(s[i + 3]))
  }

  function Minimum(len: nat): nat {
    if len <= 1 then 0 else if len == 2 then 0x80 else if len == 3 then 0x800 else 0x10000
  }

  datatype Lead = Lead(code: nat, len: nat)

  /** The character at i, if a well-formed sequence starts there. */
  function DecodeAt(s: Bytes, i: nat): (r: Option<Lead>)
    requires i < |s|
    ensures r.Some? ==> 1 <= r.value.len <= 4 && i + r.value.len <= |s|
  {
    var len := Length(s[i]);
    if len == 0 || i + len > |s| || !Continues(s, i, len) then None
    else
      var c := Assemble(s, i, len);
      if c < Minimum(len) || !Scalar(c) then None else Some(Lead(c, len))
  }

  lemma Sextets(c: nat)
    ensures c / 4096 == c / 64 / 64 && c / 262144 == c / 64 / 64 / 64
    ensures c == c / 64 * 64 + c % 64
    ensures c == (c / 4096 * 64 + c / 64 % 64) * 64 + c % 64
    ensures c == ((c / 262144 * 64 + c / 4096 % 64) * 64 + c / 64 % 64) * 64 + c % 64
  {
  }

  /** `e` is a sequence that decodes to c. */
  predicate Decodes(e: Bytes, c: nat) {
    |e| > 0 && Length(e[0]) == |e| && Minimum(|e|) <= c && Continues(e, 0, |e|) && Assemble(e, 0, |e|) == c
  }

  lemma PartsDecode(q: nat, x: nat, y: nat, z: nat)
    requires x < 64 && y < 64 && z < 64
    ensures 2 <= q < 32 ==> Decodes([0xC0 + q, 0x80 + x], q * 64 + x)
    ensures q < 16 && (q * 64 + x) * 64 >= 0x800 ==> Decodes([0xE0 + q, 0x80 + x, 0x80 + y], (q * 64 + x) * 64 + y)
    ensures q <= 4 && ((q * 64 + x) * 64) * 64 >= 0x10000 ==>
      Decodes([0xF0 + q, 0x80 + x, 0x80 + y, 0x80 + z], ((q * 64 + x) * 64 + y) * 64 + z)
  {
    assert Low(0x80 + x, 64) == x && Low(0x80 + y, 64) == y && Low(0x80 + z, 64) == z;
    if q < 32 { assert Low(0xC0 + q, 32) == q; }
    if q < 16 { assert Low(0xE0 + q, 16) == q; }
    if q <= 4 { assert Low(0xF0 + q, 8) == q; }
  }

  lemma Ascii(s: Bytes, i: nat)
    requires i < |s| && s[i] < 0x80
    ensures DecodeAt(s, i) == Some(Lead(s[i], 1)) && Assemble(s, i, 1) == s[i]
  {
  }

  lemma ContLow(b: byte)
    requires Cont(b)
    ensures Low(b, 64) == b - 0x80
  {
  }

  lemma LeadLow(a: byte)
    ensures Length(a) == 2 ==> Low(a, 32) == a - 0xC0
    ensures Length(a) == 3 ==> Low(a, 16) == a - 0xE0
    ensures Length(a) == 4 ==> Low(a, 8) == a - 0xF0
  {
  }

  lemma EncodingDecodes(c: nat)
    requires Scalar(c)
    ensures Decodes(Encode(c), c)
  {
    hide Decodes;
    Sextets(c);
    if c < 0x80 {
      OneDecodes(c);
    } else if c < 0x800 {
      PartsDecode(c / 64, c % 64, 0, 0);
    } else if c < 0x10000 {
      PartsDecode(c / 4096, c / 64 % 64, c % 64, 0);
    } else {
      PartsDecode(c / 262144, c / 4096 % 64, c / 64 % 64, c % 64);
    }
  }

  lemma OneDecodes(c: nat)
    requires c < 0x80
    ensures Decodes([c], c)
  {
  }

  lemma Fields(a: nat, x: nat, y: nat, z: nat)
    requires x < 64 && y < 64 && z < 64
    ensures (a * 64 + x) / 64 == a && (a * 64 + x) % 64 == x
    ensures var c := (a * 64 + x) * 64 + y; c % 64 == y && c / 64 % 64 == x && c / 4096 == a
    ensures var c := ((a * 64 + x) * 64 + y) * 64 + z;
      c % 64 == z && c / 64 % 64 == y && c / 4096 % 64 == x && c / 262144 == a
  {
    var p := a * 64 + x;
    var q := p * 64 + y;
    var r := q * 64 + z;
    assert r / 64 == q && q / 64 == p && p / 64 == a;
    Sextets(q);
    Sextets(r);
  }

  lemma AssembleEncodes(s: Bytes, i: nat)
    requires i < |s| && DecodeAt(s, i).Some?
    ensures var l := DecodeAt(s, i).value; Scalar(l.code) && |Encode(l.code)| == l.len && HasAt(s, i, Encode(l.code))
  {
    hide Low;
    var l := DecodeAt(s, i).value;
    if l.len == 1 {
      assert s[i..i + 1] == [s[i]];
    } else if l.len == 2 {
      TwoBytes(s[i], s[i + 1]);
      assert s[i..i + 2] == [s[i], s[i + 1]];
    } else if l.len == 3 {
      ThreeBytes(s[i], s[i + 1], s[i + 2]);
      assert s[i..i + 3] == [s[i], s[i + 1], s[i + 2]];
    } else {
      FourBytes(s[i], s[i + 1], s[i + 2], s[i + 3]);
      assert s[i..i + 4] == [s[i], s[i + 1], s[i + 2], s[i + 3]];
    }
  }

  lemma TwoBytes(a: byte, b: byte)
    requires Length(a) == 2 && Cont(b)
    ensures var c := Low(a, 32) * 64 + Low(b, 64); 0x80 <= c < 0x800 && Encode(c) == [a, b]
  {
    hide Low;
    LeadLow(a);
    ContLow(b);
    Fields(Low(a, 32), Low(b, 64), 0, 0);
  }

  lemma ThreeBytes(a: byte, b: byte, d: byte)
    requires Length(a) == 3 && Cont(b) && Cont(d)
    ensures var c := (Low(a, 16) * 64 + Low(b, 64)) * 64 + Low(d, 64);
      c < 0x10000 && (c >= 0x800 && Scalar(c) ==> Encode(c) == [a, b, d])
  {
    hide Low;
    LeadLow(a);
    ContLow(b);
    ContLow(d);
    Fields(Low(a, 16), Low(b, 64), Low(d, 64), 0);
  }

  lemma FourBytes(a: byte, b: byte, d: byte, e: byte)
    requires Length(a) == 4 && Cont(b) && Cont(d) && Cont(e)
    ensures var c := ((Low(a, 8) * 64 + Low(b, 64)) * 64 + Low(d, 64)) * 64 + Low(e, 64);
      c >= 0x10000 && Scalar(c) ==> Encode(c) == [a, b, d, e]
  {
    hide Low;
    LeadLow(a);
    ContLow(b);
    ContLow(d);
    ContLow(e);
    Fields(Low(a, 8), Low(b, 64), Low(d, 64), Low(e, 64));
  }

  /** The range, minimum and surrogate tests accept exactly the sequences of the standard. */
  lemma DecodeExact(s: Bytes, i: nat, c: nat)
    requires i < |s| && Scalar(c)
    ensures DecodeAt(s, i) == Some(Lead(c, |Encode(c)|)) <==> HasAt(s, i, Encode(c))
  {
    hide *;
    if HasAt(s, i, Encode(c)) {
      EncodingDecodes(c);
      DecodeEncoded(s, i, c);
    } else if DecodeAt(s, i).Some? {
      AssembleEncodes(s, i);
    }
  }

  lemma DecodeEncoded(s: Bytes, i: nat, c: nat)
    requires i < |s| && Scalar(c) && HasAt(s, i, Encode(c))
    ensures DecodeAt(s, i) == Some(Lead(c, |Encode(c)|))
  {
    hide Encode, Scalar, Minimum;
    EncodingDecodes(c);
    var e := Encode(c);
    assert forall k :: 0 <= k < |e| ==> e[k] == s[i..i + |e|][k];
    assert s[i] == e[0];
    assert |e| >= 2 ==> s[i + 1] == e[1];
    assert |e| >= 3 ==> s[i + 2] == e[2];
    assert |e| >= 4 ==> s[i + 3] == e[3];
  }

  // ----- Whole strings

  lemma {:induction false} EncodeAllConcat(a: seq<nat>, b: seq<nat>)
    requires Scalars(a) && Scalars(b)
    ensures Scalars(a + b) && EncodeAll(a + b) == EncodeAll(a) + EncodeAll(b)
  {
    hide Encode;
    if a == [] {
      assert a + b == b;
    } else {
      EncodeAllConcat(a[1..], b);
      assert (a + b)[1..] == a[1..] + b;
      assert Encode(a[0]) + (EncodeAll(a[1..]) + EncodeAll(b)) == Encode(a[0]) + EncodeAll(a[1..]) + EncodeAll(b);
    }
  }

  /** Where the first characters of a well-formed string end, the rest is well-formed too. */
  lemma WellFormedStep(s: Bytes, i: nat)
    requires i < |s| && WellFormed(s[i..])
    ensures DecodeAt(s, i).Some? && i + DecodeAt(s, i).value.len <= |s| && WellFormed(s[i + DecodeAt(s, i).value.len..])
  {
    hide Encode, DecodeAt;
    var t := s[i..];
    var cs :| Scalars(cs) && EncodeAll(cs) == t;
    var e := Encode(cs[0]);
    assert t == e + EncodeAll(cs[1..]);
    assert s[i..i + |e|] == t[..|e|] == e;
    DecodeExact(s, i, cs[0]);
    assert s[i + |e|..] == t[|e|..] == EncodeAll(cs[1..]);
  }

  /** is_valid_utf8 accepts exactly the well-formed strings. */
  method IsValidUtf8(s: Bytes) returns (ok: bool)
    ensures ok <==> WellFormed(s)
  {
    hide *;
    var i := 0;
    ghost var done: seq<nat> := [];
    EmptyWellFormed();
    assert s[0..] == s;
    while i < |s|
      invariant 0 <= i <= |s| && Scalars(done) && EncodeAll(done) == s[..i]
      invariant WellFormed(s) ==> WellFormed(s[i..])
    {
      if WellFormed(s) { WellFormedStep(s, i); }
      var len := SequenceAt(s, i);
      if len == 0 { return false; }
      AssembleEncodes(s, i);
      done := Extend(s, i, done);
      i := i + len;
    }
    assert s[..i] == s;
    Witness(s, done);
    ok := true;
  }

  lemma EmptyWellFormed()
    ensures Scalars([]) && EncodeAll([]) == []
  {
  }

  lemma Witness(s: Bytes, cs: seq<nat>)
    requires Scalars(cs) && EncodeAll(cs) == s
    ensures WellFormed(s)
  {
  }

  ghost method Extend(s: Bytes, i: nat, done: seq<nat>) returns (more: seq<nat>)
    requires i < |s| && DecodeAt(s, i).Some? && Scalars(done) && EncodeAll(done) == s[..i]
    ensures i + DecodeAt(s, i).value.len <= |s|
    ensures Scalars(more) && EncodeAll(more) == s[..i + DecodeAt(s, i).value.len]
  {
    hide Encode, DecodeAt;
    AssembleEncodes(s, i);
    var l := DecodeAt(s, i).value;
    more := done + [l.code];
    EncodeAllConcat(done, [l.code]);
    assert EncodeAll([l.code]) == Encode(l.code) + EncodeAll([]);
    assert s[..i + l.len] == s[..i] + s[i..i + l.len];
  }

  /** One round of the validator: the length of the sequence at i, 0 when it is ill-formed. */
  method SequenceAt(s: Bytes, i: nat) returns (len: nat)
    requires i < |s|
    ensures len == match DecodeAt(s, i) case None => 0 case Some(l) => l.len
  {
    hide Partial, Assemble, Low;
    var c := s[i];
    if c < 0x80 {
      Ascii(s, i);
      return 1;
    }
    var extra, minimum: nat;
    if 0xC0 <= c < 0xE0 {
      extra, minimum := 1, 0x80;
      if c < 0xC2 { return 0; }
    } else if 0xE0 <= c < 0xF0 {
      extra, minimum := 2, 0x800;
    } else if 0xF0 <= c < 0xF8 {
      extra, minimum := 3, 0x10000;
      if c > 0xF4 { return 0; }
    } else {
      return 0;
    }
    if i + extra >= |s| { return 0; }
    var code: nat := Partial(s, i, extra, 1);
    var k := 1;
    while k <= extra
      invariant 1 <= k <= extra + 1
      invariant Continues(s, i, k) && code == Partial(s, i, extra, k)
    {
      var cc := s[i + k];
      if !Cont(cc) { return 0; }
      PartialStep(s, i, extra, k);
      code := code * 64 + Low(cc, 64);
      k := k + 1;
    }
    PartialWhole(s, i, extra);
    if code < minimum || 0xD800 <= code <= 0xDFFF || code > 0x10FFFF { return 0; }
    len := 1 + extra;
  }

  /** The number made by the first k bytes of a sequence with `extra` continuation bytes. */
  function Partial(s: Bytes, i: nat, extra: nat, k: nat): nat
    requires 1 <= k <= 4 && 1 <= extra <= 3 && i + k <= |s|
  {
    if k == 1 then Low(s[i], if extra == 1 then 32 else if extra == 2 then 16 else 8)
    else Partial(s, i, extra, k - 1) * 64 + Low(s[i + k - 1], 64)
  }

  lemma PartialStep(s: Bytes, i: nat, extra: nat, k: nat)
    requires 1 <= k <= 3 && 1 <= extra <= 3 && i + k < |s|
    ensures Partial(s, i, extra, k + 1) == Partial(s, i, extra, k) * 64 + Low(s[i + k], 64)
  {
  }

  lemma PartialWhole(s: Bytes, i: nat, extra: nat)
    requires 1 <= extra <= 3 && i + extra < |s|
    ensures Partial(s, i, extra, extra + 1) == Assemble(s, i, extra + 1)
  {
    hide Low;
    PartialStep(s, i, extra, 1);
    if extra >= 2 { PartialStep(s, i, extra, 2); }
    if extra >= 3 { PartialStep(s, i, extra, 3); }
  }
}
