/** The text strings of the token codec: `Utf8` accepts exactly the encodings of sequences of Unicode scalar values. */
module Utf8Format {
  import opened Cbor

  // A code point that is not a surrogate.
  predicate IsScalarValue(c: nat) { c <= 0x10FFFF && !(0xD800 <= c <= 0xDFFF) }

  // Section 3 of RFC 3629: one to four bytes.
  function EncodeOne(c: nat): (b: Bytes)
    requires IsScalarValue(c)
    ensures 1 <= |b| <= 4
  {
    if c < 0x80 then [c]
    else if c < 0x800 then [0xC0 + c / 64, 0x80 + c % 64]
    else if c < 0x1_0000 then [0xE0 + c / 4096, 0x80 + c / 64 % 64, 0x80 + c % 64]
    else [0xF0 + c / 262144, 0x80 + c / 4096 % 64, 0x80 + c / 64 % 64, 0x80 + c % 64]
  }

  predicate AllScalarValues(cs: seq<nat>) { forall i :: 0 <= i < |cs| ==> IsScalarValue(cs[i]) }

  function EncodeText(cs: seq<nat>): Bytes
    requires AllScalarValues(cs)
  {
    if cs == [] then [] else EncodeOne(cs[0]) + EncodeText(cs[1..])
  }

  lemma OneIsUtf8(c: nat, rest: Bytes)
    requires IsScalarValue(c) && Utf8(rest)
    ensures Utf8(EncodeOne(c) + rest)
  {
    var e := EncodeOne(c);
    var b := e + rest;
    assert b[|e|..] == rest;
    if c < 0x80 {
      assert b[0] < 0x80;
    } else if c < 0x800 {
      assert 0xC2 <= b[0] < 0xE0 && Tail(b[1]);
    } else if c < 0x1_0000 {
      assert 0xE0 <= b[0] < 0xF0 && Tail(b[1]) && Tail(b[2]);
      assert (b[0] == 0xE0 ==> b[1] >= 0xA0) && (b[0] == 0xED ==> b[1] < 0xA0);
    } else {
      assert 0xF0 <= b[0] < 0xF5 && Tail(b[1]) && Tail(b[2]) && Tail(b[3]);
      assert (b[0] == 0xF0 ==> b[1] >= 0x90) && (b[0] == 0xF4 ==> b[1] < 0x90);
    }
  }

  lemma {:induction false} TextIsUtf8(cs: seq<nat>)
    requires AllScalarValues(cs)
    ensures Utf8(EncodeText(cs))
  {
    if cs == [] {
    } else {
      TextIsUtf8(cs[1..]);
      hide Utf8, EncodeOne;
      OneIsUtf8(cs[0], EncodeText(cs[1..]));
    }
  }

  lemma Two(x: nat, y: nat)
    requires 0xC2 <= x < 0xE0 && 0x80 <= y < 0xC0
    ensures var c := 64 * (x - 0xC0) + (y - 0x80);
            IsScalarValue(c) && EncodeOne(c) == [x, y]
  {
  }

  lemma Three(x: nat, y: nat, z: nat)
    requires 0xE0 <= x < 0xF0 && 0x80 <= y < 0xC0 && 0x80 <= z < 0xC0
    requires (x == 0xE0 ==> y >= 0xA0) && (x == 0xED ==> y < 0xA0)
    ensures var c := 4096 * (x - 0xE0) + 64 * (y - 0x80) + (z - 0x80);
            IsScalarValue(c) && EncodeOne(c) == [x, y, z]
  {
    var c := 4096 * (x - 0xE0) + 64 * (y - 0x80) + (z - 0x80);
    assert c / 64 == 64 * (x - 0xE0) + (y - 0x80);
  }

  lemma Four(w: nat, x: nat, y: nat, z: nat)
    requires 0xF0 <= w < 0xF5 && 0x80 <= x < 0xC0 && 0x80 <= y < 0xC0 && 0x80 <= z < 0xC0
    requires (w == 0xF0 ==> x >= 0x90) && (w == 0xF4 ==> x < 0x90)
    ensures var c := 262144 * (w - 0xF0) + 4096 * (x - 0x80) + 64 * (y - 0x80) + (z - 0x80);
            IsScalarValue(c) && EncodeOne(c) == [w, x, y, z]
  {
    var c := 262144 * (w - 0xF0) + 4096 * (x - 0x80) + 64 * (y - 0x80) + (z - 0x80);
    assert c / 64 == 4096 * (w - 0xF0) + 64 * (x - 0x80) + (y - 0x80);
    assert c / 4096 == 64 * (w - 0xF0) + (x - 0x80);
  }

  // The first character of well-formed text.
  lemma FirstOne(b: Bytes) returns (c: nat, n: nat)
    requires Utf8(b) && b != []
    ensures IsScalarValue(c) && 1 <= n <= |b| && b[..n] == EncodeOne(c) && Utf8(b[n..])
  {
    var w: nat, x: nat := b[0], if |b| > 1 then b[1] else 0;
    var y: nat, z: nat := if |b| > 2 then b[2] else 0, if |b| > 3 then b[3] else 0;
    if w < 0x80 {
      c, n := w, 1;
    } else if w < 0xE0 {
      c, n := 64 * (w - 0xC0) + (x - 0x80), 2;
      Two(w, x);
    } else if w < 0xF0 {
      c, n := 4096 * (w - 0xE0) + 64 * (x - 0x80) + (y - 0x80), 3;
      Three(w, x, y);
    } else {
      c, n := 262144 * (w - 0xF0) + 4096 * (x - 0x80) + 64 * (y - 0x80) + (z - 0x80), 4;
      Four(w, x, y, z);
    }
  }

  lemma {:induction false} Utf8IsText(b: Bytes) returns (cs: seq<nat>)
    requires Utf8(b)
    ensures AllScalarValues(cs) && EncodeText(cs) == b
  {
    if b == [] {
      cs := [];
    } else {
      var c, n := FirstOne(b);
      hide Utf8, EncodeOne;
      var rest := Utf8IsText(b[n..]);
      cs := [c] + rest;
      assert cs[1..] == rest && b == b[..n] + b[n..];
    }
  }

  /** Well-formed bytes are exactly the encodings of sequences of Unicode scalar values. */
  lemma Utf8Iff(b: Bytes)
    ensures Utf8(b) <==> exists cs: seq<nat> :: AllScalarValues(cs) && EncodeText(cs) == b
  {
    hide Utf8, EncodeText;
    if Utf8(b) {
      var cs := Utf8IsText(b);
    }
    if cs: seq<nat> :| AllScalarValues(cs) && EncodeText(cs) == b {
      TextIsUtf8(cs);
    }
  }
}
