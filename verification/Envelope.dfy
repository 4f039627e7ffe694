/**
 The checksum of the stored wallet envelope
 (cashu-core-lite/src/persistent.rs, `crc32`): CRC-32/ISO-HDLC, the reflected form of the 32-bit
 frame check sequence of section 8.1.1.6.2 of ITU-T V.42.

 A `u32` is modelled by its 32 bits and a `u8` by its 8 bits, lowest first, so that shifts,
 masks and exclusive-ors are written out bit by bit. The error detection is proved for bodies of
 any length: the checksum is rewritten as a register fed one bit at a time, and over at most 32
 bits that register is a bijection.
 */
module Crc {
  type Word = w: seq<bool> | |w| == 32 witness [
    false, false, false, false, false, false, false, false, false, false, false, false, false, false, false, false,
    false, false, false, false, false, false, false, false, false, false, false, false, false, false, false, false]
  type Byte = b: seq<bool> | |b| == 8 witness [
    false, false, false, false, false, false, false, false]

  // 0xEDB88320, lowest bit first.
  const POLY: Word := [
    false, false, false, false,  false, true, false, false,  true, true, false, false,  false, false, false, true,
    false, false, false, true,  true, true, false, true,  true, false, true, true,  false, true, true, true]

  const ONES: Word := [
    true, true, true, true, true, true, true, true, true, true, true, true, true, true, true, true,
    true, true, true, true, true, true, true, true, true, true, true, true, true, true, true, true]

  function Xor(x: Word, y: Word): Word
  {
    seq(32, i requires 0 <= i < 32 => x[i] != y[i])
  }

  function Complement(x: Word): Word
  {
    seq(32, i requires 0 <= i < 32 => !x[i])
  }

  // Bits zero-extended to a word.
  function Extend(bits: seq<bool>): Word
    requires |bits| <= 32
  {
    bits + seq(32 - |bits|, _ => false)
  }

  // One turn of the inner loop, `(crc >> 1) ^ (0xEDB8_8320 & mask)`, where every bit of the mask is
  // the lowest bit of `crc`.
  function Shift(c: Word): Word
  {
    seq(32, i requires 0 <= i < 32 => (i < 31 && c[i + 1]) != (POLY[i] && c[0]))
  }

  function Shifts(n: nat, c: Word): Word
    decreases n
  {
    if n == 0 then c else Shifts(n - 1, Shift(c))
  }

  function Absorb(c: Word, b: Byte): Word
  {
    Shifts(8, Xor(c, Extend(b)))
  }

  function Feed(c: Word, data: seq<Byte>): Word
    decreases |data|
  {
    if data == [] then c else Feed(Absorb(c, data[0]), data[1..])
  }

  function Checksum(data: seq<Byte>): Word
  {
    Complement(Feed(ONES, data))
  }

  /** The bitwise, table-free loop of the source. */
  method Crc32(data: seq<Byte>) returns (r: Word)
    ensures r == Checksum(data)
  {
    var crc := ONES;
    var i := 0;
    while i < |data|
      invariant 0 <= i <= |data|
      invariant Feed(crc, data[i..]) == Feed(ONES, data)
    {
      assert data[i..][1..] == data[i + 1..];
      crc := AbsorbByte(crc, data[i]);
      i := i + 1;
    }
    r := Complement(crc);
  }

  method AbsorbByte(c: Word, b: Byte) returns (crc: Word)
    ensures crc == Absorb(c, b)
  {
    crc := Xor(c, Extend(b));
    for k := 0 to 8
      invariant Shifts(8 - k, crc) == Absorb(c, b)
    {
      crc := Shift(crc);
    }
  }

  // ---- The register is linear and invertible ----

  lemma ShiftLinear(x: Word, y: Word)
    ensures Shift(Xor(x, y)) == Xor(Shift(x), Shift(y))
  {
  }

  // The polynomial has its top bit set, so the top bit of the result is the bit shifted out.
  lemma ShiftInjective(x: Word, y: Word)
    requires Shift(x) == Shift(y)
    ensures x == y
  {
    assert Shift(x)[31] == x[0] && Shift(y)[31] == y[0];
    forall i | 0 < i < 32 ensures x[i] == y[i] {
      assert Shift(x)[i - 1] == Shift(y)[i - 1];
    }
  }

  lemma {:induction false} ShiftsInjective(n: nat, x: Word, y: Word)
    requires Shifts(n, x) == Shifts(n, y)
    ensures x == y
    decreases n
  {
    if n == 0 {
    } else {
      ShiftsInjective(n - 1, Shift(x), Shift(y));
      ShiftInjective(x, y);
    }
  }

  lemma XorCancels(c: Word, x: Word, y: Word)
    requires Xor(c, x) == Xor(c, y)
    ensures x == y
  {
    forall i | 0 <= i < 32 ensures x[i] == y[i] {
      assert Xor(c, x)[i] == Xor(c, y)[i];
    }
  }

  // ---- The checksum as a serial register ----

  function Enter(c: Word, bit: bool): Word
  {
    Shift(c[0 := c[0] != bit])
  }

  function Serial(c: Word, bits: seq<bool>): Word
    decreases |bits|
  {
    if bits == [] then c else Serial(Enter(c, bits[0]), bits[1..])
  }

  lemma {:induction false} SerialConcat(c: Word, x: seq<bool>, y: seq<bool>)
    ensures Serial(c, x + y) == Serial(Serial(c, x), y)
    decreases |x|
  {
    if x == [] {
      assert x + y == y;
    } else {
      SerialConcat(Enter(c, x[0]), x[1..], y);
      assert (x + y)[1..] == x[1..] + y;
    }
  }

  lemma EnterInjective(c: Word, d: Word, bit: bool)
    requires Enter(c, bit) == Enter(d, bit)
    ensures c == d
  {
    var c', d' := c[0 := c[0] != bit], d[0 := d[0] != bit];
    ShiftInjective(c', d');
    assert c'[0] == d'[0];
    forall i | 0 < i < 32 ensures c[i] == d[i] {
      assert c'[i] == d'[i];
    }
  }

  lemma {:induction false} SerialInjective(c: Word, d: Word, bits: seq<bool>)
    requires Serial(c, bits) == Serial(d, bits)
    ensures c == d
    decreases |bits|
  {
    if bits == [] {
    } else {
      SerialInjective(Enter(c, bits[0]), Enter(d, bits[0]), bits[1..]);
      EnterInjective(c, d, bits[0]);
    }
  }

  // Entering one bit and adding a word is entering the bit and the word together.
  lemma EnterWord(c: Word, b: bool, rest: seq<bool>)
    requires |rest| <= 31
    ensures Xor(Enter(c, b), Extend(rest)) == Shift(Xor(c, Extend([b] + rest)))
  {
    var up := Extend([false] + rest);
    assert Shift(up) == Extend(rest);
    var e: Word := c[0 := c[0] != b];
    ShiftLinear(e, up);
    assert Xor(e, up) == Xor(c, Extend([b] + rest));
  }

  /** Over at most 32 bits the serial register shifts in one word. */
  lemma {:induction false} SerialIsWord(c: Word, bits: seq<bool>)
    requires |bits| <= 32
    ensures Serial(c, bits) == Shifts(|bits|, Xor(c, Extend(bits)))
    decreases |bits|
  {
    if bits == [] {
      assert Xor(c, Extend(bits)) == c;
    } else {
      SerialIsWord(Enter(c, bits[0]), bits[1..]);
      EnterWord(c, bits[0], bits[1..]);
      assert [bits[0]] + bits[1..] == bits;
    }
  }

  lemma WindowInjective(s: Word, u: seq<bool>, v: seq<bool>)
    requires |u| == |v| <= 32 && Serial(s, u) == Serial(s, v)
    ensures u == v
  {
    SerialIsWord(s, u);
    SerialIsWord(s, v);
    ShiftsInjective(|u|, Xor(s, Extend(u)), Xor(s, Extend(v)));
    XorCancels(s, Extend(u), Extend(v));
    assert u == Extend(u)[..|u|] && v == Extend(v)[..|v|];
  }

  lemma SerialAround(c: Word, before: seq<bool>, u: seq<bool>, after: seq<bool>)
    ensures Serial(c, before + u + after) == Serial(Serial(Serial(c, before), u), after)
  {
    SerialConcat(c, before, u);
    SerialConcat(c, before + u, after);
  }

  /** Two messages that differ, and differ only inside one window of at most 32 bits, leave the
      register in different states, whatever surrounds the window. */
  lemma BurstChangesRegister(c: Word, before: seq<bool>, u: seq<bool>, v: seq<bool>, after: seq<bool>)
    requires |u| == |v| <= 32 && u != v
    ensures Serial(c, before + u + after) != Serial(c, before + v + after)
  {
    SerialAround(c, before, u, after);
    SerialAround(c, before, v, after);
    var s := Serial(c, before);
    if Serial(Serial(s, u), after) == Serial(Serial(s, v), after) {
      SerialInjective(Serial(s, u), Serial(s, v), after);
      WindowInjective(s, u, v);
    }
  }

  // ---- From bits to bytes ----

  // The bits of a body in the order the register sees them.
  function Bits(data: seq<Byte>): (bits: seq<bool>)
    ensures |bits| == 8 * |data|
  {
    if data == [] then [] else data[0] + Bits(data[1..])
  }

  lemma {:induction false} FeedIsSerial(c: Word, data: seq<Byte>)
    ensures Feed(c, data) == Serial(c, Bits(data))
    decreases |data|
  {
    if data == [] {
    } else {
      SerialIsWord(c, data[0]);
      FeedIsSerial(Absorb(c, data[0]), data[1..]);
      SerialConcat(c, data[0], Bits(data[1..]));
    }
  }

  // ---- The checksum as a remainder ----

  // The generator x^32 + x^26 + x^23 + x^22 + x^16 + x^12 + x^11 + x^10 + x^8 + x^7 + x^5 + x^4 + x^2 + x + 1 of
  // section 8.1.1.6.2 of ITU-T V.42: does x^k occur below its leading term?
  predicate InGenerator(k: nat)
  {
    k in {26, 23, 22, 16, 12, 11, 10, 8, 7, 5, 4, 2, 1, 0}
  }

  lemma PolyIsGenerator(i: nat)
    requires i < 32
    ensures POLY[i] <==> InGenerator(31 - i)
  {
  }

  // Schoolbook division modulo 2, highest coefficient first: while the dividend has more than 32 coefficients, the
  // leading one is removed, by subtracting the generator there if it is set.
  function Remainder(dividend: seq<bool>): (r: seq<bool>)
    requires |dividend| >= 32
    ensures |r| == 32
    decreases |dividend|
  {
    if |dividend| == 32 then dividend
    else Remainder(seq(|dividend| - 1, i requires 0 <= i < |dividend| - 1 =>
      dividend[i + 1] != (dividend[0] && i < 32 && InGenerator(31 - i))))
  }

  // The message times x^32, plus the register's coefficients in front.
  function Dividend(c: Word, bits: seq<bool>): (d: seq<bool>)
    ensures |d| == 32 + |bits|
  {
    seq(32 + |bits|, i requires 0 <= i < 32 + |bits| => (i < 32 && c[i]) != (i < |bits| && bits[i]))
  }

  /** The serial register divides by the generator. */
  lemma {:induction false} SerialIsRemainder(c: Word, bits: seq<bool>)
    ensures Serial(c, bits) == Remainder(Dividend(c, bits))
    decreases |bits|
  {
    var d := Dividend(c, bits);
    if bits == [] {
      assert d == c;
    } else {
      SerialIsRemainder(Enter(c, bits[0]), bits[1..]);
      DivisionStep(c, bits);
    }
  }

  lemma DivisionStep(c: Word, bits: seq<bool>)
    requires bits != []
    ensures var d := Dividend(c, bits);
            Dividend(Enter(c, bits[0]), bits[1..]) ==
            seq(|d| - 1, i requires 0 <= i < |d| - 1 => d[i + 1] != (d[0] && i < 32 && InGenerator(31 - i)))
  {
    hide InGenerator;
    var d, c' := Dividend(c, bits), Enter(c, bits[0]);
    var e := Dividend(c', bits[1..]);
    forall i | 0 <= i < |d| - 1 ensures e[i] == (d[i + 1] != (d[0] && i < 32 && InGenerator(31 - i))) {
      if i < 32 {
        PolyIsGenerator(i);
        assert c'[i] == ((i < 31 && c[i + 1]) != (InGenerator(31 - i) && d[0]));
      }
    }
  }

  /** The checksum is the one of the recommendation: the ones' complement of the remainder, by the generator, of the
      body times x^32 plus 32 ones in front of it. */
  lemma ChecksumIsRemainder(data: seq<Byte>)
    ensures Checksum(data) == Complement(Remainder(Dividend(ONES, Bits(data))))
  {
    FeedIsSerial(ONES, data);
    SerialIsRemainder(ONES, Bits(data));
  }

  lemma ComplementInjective(x: Word, y: Word)
    requires Complement(x) == Complement(y)
    ensures x == y
  {
    forall i | 0 <= i < 32 ensures x[i] == y[i] {
      assert Complement(x)[i] == Complement(y)[i];
    }
  }

  /** Burst detection: if the bit strings of two bodies differ, but only inside one window of at
      most 32 bits, their checksums differ. */
  lemma BurstDetected(x: seq<Byte>, y: seq<Byte>, before: seq<bool>, u: seq<bool>, v: seq<bool>, after: seq<bool>)
    requires Bits(x) == before + u + after && Bits(y) == before + v + after
    requires |u| == |v| <= 32 && u != v
    ensures Checksum(x) != Checksum(y)
  {
    FeedIsSerial(ONES, x);
    FeedIsSerial(ONES, y);
    BurstChangesRegister(ONES, before, u, v, after);
    if Checksum(x) == Checksum(y) {
      ComplementInjective(Feed(ONES, x), Feed(ONES, y));
    }
  }

  lemma {:induction false} BitsConcat(x: seq<Byte>, y: seq<Byte>)
    ensures Bits(x + y) == Bits(x) + Bits(y)
  {
    if x == [] {
      assert x + y == y;
    } else {
      BitsConcat(x[1..], y);
      assert (x + y)[1..] == x[1..] + y;
    }
  }

  lemma {:induction false} BitsInjective(x: seq<Byte>, y: seq<Byte>)
    requires |x| == |y| && Bits(x) == Bits(y)
    ensures x == y
  {
    if x == [] {
    } else {
      assert x[0] == Bits(x)[..8] && y[0] == Bits(y)[..8];
      assert Bits(x[1..]) == Bits(x)[8..] && Bits(y[1..]) == Bits(y)[8..];
      BitsInjective(x[1..], y[1..]);
      assert x == [x[0]] + x[1..] && y == [y[0]] + y[1..];
    }
  }

  /** The byte form: changing any window of up to four consecutive bytes changes the checksum. */
  lemma WindowDetected(before: seq<Byte>, u: seq<Byte>, v: seq<Byte>, after: seq<Byte>)
    requires |u| == |v| <= 4 && u != v
    ensures Checksum(before + u + after) != Checksum(before + v + after)
  {
    BitsConcat(before, u);
    BitsConcat(before, v);
    BitsConcat(before + u, after);
    BitsConcat(before + v, after);
    if Bits(u) == Bits(v) {
      BitsInjective(u, v);
    }
    BurstDetected(before + u + after, before + v + after, Bits(before), Bits(u), Bits(v), Bits(after));
  }
}

/**
 The envelope itself (cashu-core-lite/src/persistent.rs, `encode_envelope`, `decode_envelope`):
 `MAGIC || crc32(body), little-endian || body`. The CBOR codec of the body is a parameter.
 */
module Envelope {
  import opened Results
  import opened Amounts
  import opened Crc

  const ENVELOPE_VERSION := 1

  // The bits of a number, the lowest first.
  function BitsOf(n: nat, k: nat): (bits: seq<bool>)
    ensures |bits| == k
  {
    if k == 0 then [] else [n % 2 == 1] + BitsOf(n / 2, k - 1)
  }

  // "CCL1"
  const MAGIC: seq<Byte> := [BitsOf(0x43, 8), BitsOf(0x43, 8), BitsOf(0x4C, 8), BitsOf(0x31, 8)]

  datatype Contents<P> = Contents(version: nat, counter: nat, proofs: seq<P>, seedId: seq<Byte>)

  datatype Codec<!P(!new)> = Codec(encode: Contents<P> -> seq<Byte>, decode: seq<Byte> -> Option<Contents<P>>) {
    // What is asked of the CBOR library: decoding undoes encoding.
    ghost predicate RoundTrips()
    {
      forall e: Contents<P> :: decode(encode(e)) == Some(e)
    }
  }

  // `u32::to_le_bytes`: with the lowest bit first, the bytes are the word cut into eights.
  function LeBytes(w: Word): (r: seq<Byte>)
    ensures |r| == 4
  {
    [w[0..8], w[8..16], w[16..24], w[24..32]]
  }

  function FromLeBytes(r: seq<Byte>): (w: Word)
    requires |r| == 4
  {
    var lowest: seq<bool> := r[0];
    lowest + r[1] + r[2] + r[3]
  }

  lemma LeBytesRoundTrip(w: Word, r: seq<Byte>)
    requires |r| == 4
    ensures FromLeBytes(LeBytes(w)) == w
    ensures FromLeBytes(r) == w ==> r == LeBytes(w)
  {
    var v := FromLeBytes(r);
    assert v[0..8] == r[0] && v[8..16] == r[1] && v[16..24] == r[2] && v[24..32] == r[3];
  }

  function Encode<P(!new)>(codec: Codec<P>, counter: nat, proofs: seq<P>, seedId: seq<Byte>): seq<Byte>
  {
    var body := codec.encode(Contents(ENVELOPE_VERSION, counter, proofs, seedId));
    MAGIC + LeBytes(Checksum(body)) + body
  }

  function Decode<P(!new)>(codec: Codec<P>, bytes: seq<Byte>, seedId: seq<Byte>): Option<(nat, seq<P>)>
  {
    if |bytes| < |MAGIC| + 4 || bytes[..4] != MAGIC then None
    else if Checksum(bytes[8..]) != FromLeBytes(bytes[4..8]) then None
    else
      match codec.decode(bytes[8..])
      case None => None
      case Some(e) =>
        if e.version != ENVELOPE_VERSION || e.seedId != seedId then None
        else Some((e.counter, e.proofs))
  }

  lemma Layout<P(!new)>(codec: Codec<P>, counter: nat, proofs: seq<P>, seedId: seq<Byte>)
    ensures var blob := Encode(codec, counter, proofs, seedId);
            var body := codec.encode(Contents(ENVELOPE_VERSION, counter, proofs, seedId));
            |blob| == 8 + |body| && blob[..4] == MAGIC && blob[4..8] == LeBytes(Checksum(body)) && blob[8..] == body
  {
  }

  // The number that bits stand for, the lowest first.
  function Value(bits: seq<bool>): nat
  {
    if bits == [] then 0 else (if bits[0] then 1 else 0) + 2 * Value(bits[1..])
  }

  lemma {:induction false} ValueInjective(x: seq<bool>, y: seq<bool>)
    requires |x| == |y| && Value(x) == Value(y)
    ensures x == y
  {
    if x == [] {
    } else {
      ValueInjective(x[1..], y[1..]);
      assert x == [x[0]] + x[1..] && y == [y[0]] + y[1..];
    }
  }

  lemma {:induction false} ValueOfBits(n: nat, k: nat)
    requires n < Pow2(k)
    ensures Value(BitsOf(n, k)) == n
  {
    if k == 0 {
    } else {
      ValueOfBits(n / 2, k - 1);
      assert BitsOf(n, k)[1..] == BitsOf(n / 2, k - 1);
    }
  }

  lemma MagicValues()
    ensures Value(MAGIC[0]) == 0x43 && Value(MAGIC[1]) == 0x43 && Value(MAGIC[2]) == 0x4C && Value(MAGIC[3]) == 0x31
  {
    hide Value, BitsOf;
    assert Pow2(8) == 256;
    ValueOfBits(0x43, 8);
    ValueOfBits(0x4C, 8);
    ValueOfBits(0x31, 8);
  }

  // The header in literal bytes: 0x43 0x43 0x4C 0x31 ("CCL1"), then the checksum of the rest, its lowest byte first.
  ghost predicate HeaderIs(bytes: seq<Byte>)
  {
    && |bytes| >= 8
    && Value(bytes[0]) == 0x43 && Value(bytes[1]) == 0x43 && Value(bytes[2]) == 0x4C && Value(bytes[3]) == 0x31
    && forall i :: 0 <= i < 32 ==> bytes[4 + i / 8][i % 8] == Checksum(bytes[8..])[i]
  }

  lemma HeaderIff(bytes: seq<Byte>)
    ensures HeaderIs(bytes) <==>
            |bytes| >= 8 && bytes[..4] == MAGIC && FromLeBytes(bytes[4..8]) == Checksum(bytes[8..])
  {
    hide Value, Checksum, FromLeBytes, BitsOf;
    if |bytes| >= 8 {
      MagicIff(bytes[..4]);
      ChecksumIff(bytes[4..8], Checksum(bytes[8..]));
      assert forall i :: 0 <= i < 32 ==> bytes[4 + i / 8] == bytes[4..8][i / 8];
    }
  }

  /** What is saved: that header, and the body of version 1. */
  lemma BlobLayout<P(!new)>(codec: Codec<P>, counter: nat, proofs: seq<P>, seedId: seq<Byte>)
    ensures var blob := Encode(codec, counter, proofs, seedId);
            HeaderIs(blob) && blob[8..] == codec.encode(Contents(1, counter, proofs, seedId))
  {
    hide Checksum, HeaderIs, LeBytes, FromLeBytes, BitsOf;
    Layout(codec, counter, proofs, seedId);
    var blob := Encode(codec, counter, proofs, seedId);
    LeBytesRoundTrip(Checksum(blob[8..]), blob[4..8]);
    HeaderIff(blob);
  }

  /** Exactly which bytes load, and as what: that header, and a body that decodes as version 1 of this seed. */
  lemma DecodeIff<P(!new)>(codec: Codec<P>, bytes: seq<Byte>, seedId: seq<Byte>, counter: nat, proofs: seq<P>)
    ensures Decode(codec, bytes, seedId) == Some((counter, proofs)) <==>
            HeaderIs(bytes) && codec.decode(bytes[8..]) == Some(Contents(1, counter, proofs, seedId))
  {
    hide Checksum, HeaderIs, FromLeBytes, BitsOf;
    HeaderIff(bytes);
  }

  lemma ChecksumIff(r: seq<Byte>, w: Word)
    requires |r| == 4
    ensures FromLeBytes(r) == w <==> forall i :: 0 <= i < 32 ==> r[i / 8][i % 8] == w[i]
  {
    var v := FromLeBytes(r);
    forall i | 0 <= i < 32 ensures v[i] == r[i / 8][i % 8] {
      LeBitAt(r, i);
    }
  }

  lemma LeBitAt(r: seq<Byte>, i: nat)
    requires |r| == 4 && i < 32
    ensures FromLeBytes(r)[i] == r[i / 8][i % 8]
  {
  }

  lemma MagicIff(b: seq<Byte>)
    requires |b| == 4
    ensures b == MAGIC <==>
            Value(b[0]) == 0x43 && Value(b[1]) == 0x43 && Value(b[2]) == 0x4C && Value(b[3]) == 0x31
  {
    hide Value, BitsOf;
    MagicValues();
    forall i | 0 <= i < 4 ensures Value(b[i]) == Value(MAGIC[i]) <==> b[i] == MAGIC[i] {
      ValueIs(b[i], MAGIC[i]);
    }
    assert b == [b[0], b[1], b[2], b[3]];
  }

  lemma ValueIs(x: Byte, y: Byte)
    ensures Value(x) == Value(y) <==> x == y
  {
    if Value(x) == Value(y) {
      ValueInjective(x, y);
    }
  }

  /** A saved blob loads back under its own seed and reads as nothing under any other. */
  lemma RoundTrip<P(!new)>(codec: Codec<P>, counter: nat, proofs: seq<P>, seedId: seq<Byte>, other: seq<Byte>)
    requires codec.RoundTrips()
    ensures Decode(codec, Encode(codec, counter, proofs, seedId), other) ==
            if other == seedId then Some((counter, proofs)) else None
  {
    Layout(codec, counter, proofs, seedId);
    var body := codec.encode(Contents(ENVELOPE_VERSION, counter, proofs, seedId));
    LeBytesRoundTrip(Checksum(body), LeBytes(Checksum(body)));
  }

  /** Any change confined to the header (magic and checksum), of whatever size, is caught. */
  lemma HeaderCorruptionCaught<P(!new)>(codec: Codec<P>, counter: nat, proofs: seq<P>, seedId: seq<Byte>,
                                        bad: seq<Byte>, other: seq<Byte>)
    requires var blob := Encode(codec, counter, proofs, seedId);
             |bad| == |blob| && bad != blob && bad[8..] == blob[8..]
    ensures Decode(codec, bad, other) == None
  {
    var blob := Encode(codec, counter, proofs, seedId);
    Layout(codec, counter, proofs, seedId);
    assert bad == bad[..4] + bad[4..8] + bad[8..];
    assert blob == blob[..4] + blob[4..8] + blob[8..];
    LeBytesRoundTrip(Checksum(blob[8..]), bad[4..8]);
  }

  /** Any change confined to 32 consecutive bits of the body is caught. */
  lemma BurstCaught<P(!new)>(codec: Codec<P>, counter: nat, proofs: seq<P>, seedId: seq<Byte>, bad: seq<Byte>,
                             other: seq<Byte>,
                       before: seq<bool>, u: seq<bool>, v: seq<bool>, after: seq<bool>)
    requires var blob := Encode(codec, counter, proofs, seedId);
             && |bad| == |blob| && bad[..8] == blob[..8]
             && Bits(blob[8..]) == before + u + after && Bits(bad[8..]) == before + v + after
    requires |u| == |v| <= 32 && u != v
    ensures Decode(codec, bad, other) == None
  {
    var blob := Encode(codec, counter, proofs, seedId);
    Layout(codec, counter, proofs, seedId);
    BurstDetected(blob[8..], bad[8..], before, u, v, after);
    assert bad[4..8] == bad[..8][4..8] && blob[4..8] == blob[..8][4..8];
    LeBytesRoundTrip(Checksum(blob[8..]), blob[4..8]);
  }

  lemma UpdateIsWindow(blob: seq<Byte>, i: nat, b: Byte)
    requires i < |blob| && b != blob[i]
    ensures blob[i := b] != blob && blob[i := b] == blob[..i] + [b] + blob[i + 1..]
    ensures blob[i..i + 1] != [b]
    ensures i < 8 <= |blob| ==> blob[i := b][8..] == blob[8..]
  {
    assert blob[i := b][i] != blob[i];
    assert blob[i..i + 1][0] == blob[i];
  }

  /** Changing any one byte of a saved blob, wherever it is, is caught. */
  lemma ByteCorruptionCaught<P(!new)>(codec: Codec<P>, counter: nat, proofs: seq<P>, seedId: seq<Byte>, i: nat, b: Byte,
                                      other: seq<Byte>)
    requires var blob := Encode(codec, counter, proofs, seedId); i < |blob| && b != blob[i]
    ensures Decode(codec, Encode(codec, counter, proofs, seedId)[i := b], other) == None
  {
    var blob := Encode(codec, counter, proofs, seedId);
    Layout(codec, counter, proofs, seedId);
    UpdateIsWindow(blob, i, b);
    if i < 8 {
      HeaderCorruptionCaught(codec, counter, proofs, seedId, blob[i := b], other);
    } else {
      WindowCorruptionCaught(codec, counter, proofs, seedId, i - 8, [b], other);
    }
  }

  /** Changing any window of up to four consecutive body bytes is caught. */
  lemma WindowCorruptionCaught<P(!new)>(codec: Codec<P>, counter: nat, proofs: seq<P>, seedId: seq<Byte>, at: nat,
                                        v: seq<Byte>, other: seq<Byte>)
    requires var blob := Encode(codec, counter, proofs, seedId);
             |v| <= 4 && 8 + at + |v| <= |blob| && v != blob[8 + at..8 + at + |v|]
    ensures var blob := Encode(codec, counter, proofs, seedId);
            Decode(codec, blob[..8 + at] + v + blob[8 + at + |v|..], other) == None
  {
    var blob := Encode(codec, counter, proofs, seedId);
    Layout(codec, counter, proofs, seedId);
    var body := blob[8..];
    BodyWindow(blob, at, v);
    WindowDetected(body[..at], body[at..at + |v|], v, body[at + |v|..]);
    LeBytesRoundTrip(Checksum(body), blob[4..8]);
  }

  lemma BodyWindow(blob: seq<Byte>, at: nat, v: seq<Byte>)
    requires 8 + at + |v| <= |blob|
    ensures var bad, body := blob[..8 + at] + v + blob[8 + at + |v|..], blob[8..];
            && |bad| == |blob| && bad[..4] == blob[..4] && bad[4..8] == blob[4..8]
            && bad[8..] == body[..at] + v + body[at + |v|..]
            && body == body[..at] + body[at..at + |v|] + body[at + |v|..]
            && body[at..at + |v|] == blob[8 + at..8 + at + |v|]
  {
    var bad := blob[..8 + at] + v + blob[8 + at + |v|..];
    assert bad[..8] == blob[..8];
  }
}
