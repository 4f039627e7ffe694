/**
 Base64url as the token codec uses it (cashu-core-lite/src/token.rs, `encode_base64url`,
 `decode_base64url`): the alphabet of section 5 of RFC 4648, written without padding, read with
 either alphabet and with any amount of padding.
 */
module Base64Url {
  import opened Octets
  import opened Results

  const PAD: octet := 61  // '='

  type sextet = x: int | 0 <= x < 64

  // "A-Z a-z 0-9 - _"
  function CharOf(x: sextet): octet
  {
    if x < 26 then 65 + x else if x < 52 then 97 + (x - 26) else if x < 62 then 48 + (x - 52)
    else if x == 62 then 45 else 95
  }

  // The decode table: -1 for a character outside both alphabets.
  function ValueOf(c: octet): (v: int)
    ensures -1 <= v < 64
  {
    if 65 <= c < 91 then c - 65
    else if 97 <= c < 123 then c - 97 + 26
    else if 48 <= c < 58 then c - 48 + 52
    else if c == 43 || c == 45 then 62
    else if c == 47 || c == 95 then 63
    else -1
  }

  predicate InAlphabet(c: octet) { ValueOf(c) >= 0 }

  // ---- Encoding ----

  function EncodeGroup(x: octet, y: octet, z: octet): (r: seq<octet>)
    ensures |r| == 4
  {
    [CharOf(x / 4), CharOf(x % 4 * 16 + y / 16), CharOf(y % 16 * 4 + z / 64), CharOf(z % 64)]
  }

  // One chunk of the input: k bytes give k + 1 characters.
  function EncodeChunk(chunk: seq<octet>): (r: seq<octet>)
    requires 1 <= |chunk| <= 3
    ensures |r| == |chunk| + 1
  {
    var y, z := if |chunk| > 1 then chunk[1] else 0, if |chunk| > 2 then chunk[2] else 0;
    EncodeGroup(chunk[0], y, z)[..|chunk| + 1]
  }

  function ChunkSize(data: seq<octet>): nat
  {
    if |data| < 3 then |data| else 3
  }

  function Encode(data: seq<octet>): seq<octet>
  {
    if data == [] then []
    else EncodeChunk(data[..ChunkSize(data)]) + Encode(data[ChunkSize(data)..])
  }

  lemma LastDigit(n: nat, d: nat)
    requires d < 64
    ensures (64 * n + d) / 64 == n && (64 * n + d) % 64 == d
  {
  }

  // The source packs three bytes into a 24-bit number and cuts it into sextets.
  lemma Sextets(x: octet, y: octet, z: octet)
    ensures var n := 65536 * x + 256 * y + z;
            && n / 262144 % 64 == x / 4
            && n / 4096 % 64 == x % 4 * 16 + y / 16
            && n / 64 % 64 == y % 16 * 4 + z / 64
            && n % 64 == z % 64
  {
    var n := 65536 * x + 256 * y + z;
    var a, b, c := x / 4, x % 4 * 16 + y / 16, y % 16 * 4 + z / 64;
    assert n == 64 * (64 * (64 * a + b) + c) + z % 64;
    LastDigit(64 * (64 * a + b) + c, z % 64);
    LastDigit(64 * a + b, c);
    LastDigit(a, b);
    assert n / 64 / 64 == n / 4096 && n / 64 / 64 / 64 == n / 262144;
  }

  /** The encoder loop over chunks of three bytes. */
  method EncodeBytes(input: seq<octet>) returns (out: seq<octet>)
    ensures out == Encode(input)
  {
    out := [];
    var i := 0;
    while i < |input|
      invariant 0 <= i <= |input|
      invariant out + Encode(input[i..]) == Encode(input)
    {
      var size := ChunkSize(input[i..]);
      assert input[i..][..size] == input[i..i + size] && input[i..][size..] == input[i + size..];
      var group := EncodeOne(input[i..i + size]);
      ghost var rest := Encode(input[i + size..]);
      assert out + (group + rest) == (out + group) + rest;
      out := out + group;
      i := i + size;
    }
  }

  method EncodeOne(chunk: seq<octet>) returns (group: seq<octet>)
    requires 1 <= |chunk| <= 3
    ensures group == EncodeChunk(chunk)
  {
    var b0, b1, b2 := chunk[0], if |chunk| > 1 then chunk[1] else 0, if |chunk| > 2 then chunk[2] else 0;
    var n: int := 65536 * (b0 as int) + 256 * (b1 as int) + b2 as int;
    Sextets(b0, b1, b2);
    group := [CharOf(n / 262144 % 64), CharOf(n / 4096 % 64)];
    if |chunk| > 1 {
      group := group + [CharOf(n / 64 % 64)];
    }
    if |chunk| > 2 {
      group := group + [CharOf(n % 64)];
    }
  }

  // ---- The encoding as RFC 4648 says it ----

  // Bit j of the data, the highest bit of each byte first; zeros follow the data.
  function Bit(data: seq<octet>, j: nat): nat
  {
    if j / 8 < |data| then data[j / 8] / [128, 64, 32, 16, 8, 4, 2, 1][j % 8] % 2 else 0
  }

  // The number made of bits j to j + 5.
  function SixAt(data: seq<octet>, j: nat): nat
  {
    32 * Bit(data, j) + 16 * Bit(data, j + 1) + 8 * Bit(data, j + 2) +
    4 * Bit(data, j + 3) + 2 * Bit(data, j + 4) + Bit(data, j + 5)
  }

  function Six(data: seq<octet>, i: nat): nat { SixAt(data, 6 * i) }

  lemma ByteBits(x: octet)
    ensures x == 128 * (x / 128 % 2) + 64 * (x / 64 % 2) + 32 * (x / 32 % 2) + 16 * (x / 16 % 2)
                 + 8 * (x / 8 % 2) + 4 * (x / 4 % 2) + 2 * (x / 2 % 2) + x % 2
  {
    Halves(x);
    Eight(x, x / 2, x / 4, x / 8, x / 16, x / 32, x / 64, x / 128);
  }

  lemma Eight(x: nat, a: nat, b: nat, c: nat, d: nat, e: nat, f: nat, g: nat)
    requires a == x / 2 && b == a / 2 && c == b / 2 && d == c / 2 && e == d / 2 && f == e / 2 && g == f / 2 && g < 2
    ensures x == 128 * (g % 2) + 64 * (f % 2) + 32 * (e % 2) + 16 * (d % 2) + 8 * (c % 2) + 4 * (b % 2) + 2 * (a % 2)
                 + x % 2
  {
    assert x == 2 * a + x % 2 && a == 2 * b + a % 2 && b == 2 * c + b % 2 && c == 2 * d + c % 2;
    assert d == 2 * e + d % 2 && e == 2 * f + e % 2 && f == 2 * g + f % 2;
  }

  lemma Halves(x: octet)
    ensures x / 4 == x / 2 / 2 && x / 8 == x / 4 / 2 && x / 16 == x / 8 / 2 && x / 32 == x / 16 / 2
    ensures x / 64 == x / 32 / 2 && x / 128 == x / 64 / 2 && x / 128 < 2
  {
  }

  // The four sextets of the first three bytes.
  lemma FirstSixes(data: seq<octet>)
    requires data != []
    ensures var (x, y, z) := (data[0], if |data| > 1 then data[1] else 0, if |data| > 2 then data[2] else 0);
            && Six(data, 0) == x / 4 && Six(data, 1) == x % 4 * 16 + y / 16
            && Six(data, 2) == y % 16 * 4 + z / 64 && Six(data, 3) == z % 64
  {
    hide Bit;
    var (x, y, z) := (data[0], if |data| > 1 then data[1] else 0, if |data| > 2 then data[2] else 0);
    BitsOf(data, 0, x);
    BitsOf(data, 1, y);
    BitsOf(data, 2, z);
    SixOf(x);
    SixOf(y);
    SixOf(z);
  }

  lemma BitAt(data: seq<octet>, k: nat, b: nat, x: octet)
    requires b < 8 && x == if k < |data| then data[k] else 0
    ensures Bit(data, 8 * k + b) == x / [128, 64, 32, 16, 8, 4, 2, 1][b] % 2
  {
    assert (8 * k + b) / 8 == k && (8 * k + b) % 8 == b;
  }

  lemma BitsOf(data: seq<octet>, k: nat, x: octet)
    requires x == if k < |data| then data[k] else 0
    ensures Bit(data, 8 * k) == x / 128 % 2 && Bit(data, 8 * k + 1) == x / 64 % 2
    ensures Bit(data, 8 * k + 2) == x / 32 % 2 && Bit(data, 8 * k + 3) == x / 16 % 2
    ensures Bit(data, 8 * k + 4) == x / 8 % 2 && Bit(data, 8 * k + 5) == x / 4 % 2
    ensures Bit(data, 8 * k + 6) == x / 2 % 2 && Bit(data, 8 * k + 7) == x % 2
  {
    hide Bit;
    BitAt(data, k, 0, x);
    BitAt(data, k, 1, x);
    BitAt(data, k, 2, x);
    BitAt(data, k, 3, x);
    BitAt(data, k, 4, x);
    BitAt(data, k, 5, x);
    BitAt(data, k, 6, x);
    BitAt(data, k, 7, x);
  }

  // The bits of a byte, grouped from the top and from the bottom.
  lemma SixOf(x: octet)
    ensures x / 4 == 32 * (x / 128 % 2) + 16 * (x / 64 % 2) + 8 * (x / 32 % 2) + 4 * (x / 16 % 2) + 2 * (x / 8 % 2)
                     + x / 4 % 2
    ensures x % 4 == 2 * (x / 2 % 2) + x % 2
    ensures x / 16 == 8 * (x / 128 % 2) + 4 * (x / 64 % 2) + 2 * (x / 32 % 2) + x / 16 % 2
    ensures x % 16 == 8 * (x / 8 % 2) + 4 * (x / 4 % 2) + 2 * (x / 2 % 2) + x % 2
    ensures x / 64 == 2 * (x / 128 % 2) + x / 64 % 2
    ensures x % 64 == 32 * (x / 32 % 2) + 16 * (x / 16 % 2) + 8 * (x / 8 % 2) + 4 * (x / 4 % 2) + 2 * (x / 2 % 2)
                      + x % 2
  {
    ByteBits(x);
  }

  lemma SixShift(data: seq<octet>, i: nat)
    requires |data| >= 3
    ensures Six(data, i + 4) == Six(data[3..], i)
  {
    assert 6 * (i + 4) == 6 * i + 24;
    SixAtShift(data, 6 * i);
  }

  lemma SixAtShift(data: seq<octet>, j: nat)
    requires |data| >= 3
    ensures SixAt(data, j + 24) == SixAt(data[3..], j)
  {
    hide Bit;
    BitShift(data, j);
    BitShift(data, j + 1);
    BitShift(data, j + 2);
    BitShift(data, j + 3);
    BitShift(data, j + 4);
    BitShift(data, j + 5);
    assert j + 24 + 1 == j + 1 + 24 && j + 24 + 2 == j + 2 + 24 && j + 24 + 3 == j + 3 + 24;
    assert j + 24 + 4 == j + 4 + 24 && j + 24 + 5 == j + 5 + 24;
  }

  lemma BitShift(data: seq<octet>, j: nat)
    requires |data| >= 3
    ensures Bit(data, j + 24) == Bit(data[3..], j)
  {
    assert (j + 24) / 8 == j / 8 + 3 && (j + 24) % 8 == j % 8;
  }

  /** The encoding is the one of section 5 of RFC 4648: the bits of the data, six at a time, each six a character of the
      url-safe alphabet, the last padded with zeros. */
  lemma {:induction false} EncodeIsSixBits(data: seq<octet>, i: nat)
    requires i < (8 * |data| + 5) / 6
    ensures |Encode(data)| == (8 * |data| + 5) / 6 && Six(data, i) < 64
    ensures Encode(data)[i] ==
            ("ABCDEFGHIJKLMNOPQRSTUVWXYZ" + "abcdefghijklmnopqrstuvwxyz" + "0123456789" + "-_")[Six(data, i)] as int
    decreases |data|
  {
    EncodedLength(data);
    hide Six;
    if i < 4 {
      FirstSixes(data);
      AlphabetIs(Six(data, i));
    } else {
      EncodeIsSixBits(data[3..], i - 4);
      SixShift(data, i - 4);
    }
  }

  lemma {:induction false} EncodedLength(data: seq<octet>)
    ensures |Encode(data)| == (8 * |data| + 5) / 6
  {
    if data == [] {
    } else {
      EncodedLength(data[ChunkSize(data)..]);
    }
  }

  lemma AlphabetIs(x: sextet)
    ensures CharOf(x) ==
            ("ABCDEFGHIJKLMNOPQRSTUVWXYZ" + "abcdefghijklmnopqrstuvwxyz" + "0123456789" + "-_")[x] as int
  {
    if x < 26 {
      UpperIs(x);
    } else if x < 52 {
      LowerIs(x - 26);
    } else if x < 62 {
      DigitIs(x - 52);
    }
  }

  lemma UpperIs(x: nat)
    requires x < 26
    ensures "ABCDEFGHIJKLMNOPQRSTUVWXYZ"[x] as int == 65 + x
  {
  }

  lemma LowerIs(x: nat)
    requires x < 26
    ensures "abcdefghijklmnopqrstuvwxyz"[x] as int == 97 + x
  {
  }

  lemma DigitIs(x: nat)
    requires x < 10
    ensures "0123456789"[x] as int == 48 + x
  {
  }

  // ---- Decoding ----

  function Byte0(a: sextet, b: sextet): octet { a * 4 + b / 16 }
  function Byte1(b: sextet, c: sextet): octet { b % 16 * 16 + c / 4 }
  function Byte2(c: sextet, d: sextet): octet { c % 4 * 64 + d }

  // The characters left after the padding is cut off.
  function Strip(s: seq<octet>): (t: seq<octet>)
    ensures t <= s
  {
    if s != [] && s[|s| - 1] == PAD then Strip(s[..|s| - 1]) else s
  }

  // Two, three or four characters give one, two or three bytes.
  function Group(s: seq<octet>): Option<seq<octet>>
    requires 2 <= |s| <= 4
  {
    var a, b := ValueOf(s[0]), ValueOf(s[1]);
    if a < 0 || b < 0 then None
    else if |s| == 2 then Some([Byte0(a, b)])
    else
      var c := ValueOf(s[2]);
      if c < 0 then None
      else if |s| == 3 then Some([Byte0(a, b), Byte1(b, c)])
      else
        var d := ValueOf(s[3]);
        if d < 0 then None else Some([Byte0(a, b), Byte1(b, c), Byte2(c, d)])
  }

  // Full groups, then a remainder of two or three characters; a lone last character is not looked at.
  function Groups(s: seq<octet>): Option<seq<octet>>
  {
    if |s| < 2 then Some([])
    else if |s| < 4 then Group(s)
    else
      match (Group(s[..4]), Groups(s[4..]))
      case (Some(g), Some(rest)) => Some(g + rest)
      case _ => None
  }

  function Decode(s: seq<octet>): Option<seq<octet>>
  {
    Groups(Strip(s))
  }

  /** The decoder loop of the source, with its early returns. */
  method DecodeChars(input: seq<octet>) returns (r: Option<seq<octet>>)
    ensures r == Decode(input)
  {
    if |input| == 0 {
      return Some([]);
    }
    var len := |input|;
    assert input[..len] == input;
    while len > 0 && input[len - 1] == PAD
      invariant 0 <= len <= |input|
      invariant Strip(input[..len]) == Strip(input)
    {
      assert input[..len][..len - 1] == input[..len - 1];
      len := len - 1;
    }
    var s := input[..len];
    assert len > 0 ==> s[|s| - 1] == input[len - 1];
    assert s == Strip(input);
    r := DecodeGroups(s);
  }

  // What the whole input decodes to, once `output` has been decoded and `s` is left.
  function Finish(output: seq<octet>, s: seq<octet>): Option<seq<octet>>
  {
    match Groups(s)
    case None => None
    case Some(rest) => Some(output + rest)
  }

  lemma FinishGroup(output: seq<octet>, s: seq<octet>)
    requires |s| >= 4
    ensures Finish(output, s) ==
            match Group(s[..4])
            case None => None
            case Some(g) => Finish(output + g, s[4..])
  {
    match (Group(s[..4]), Groups(s[4..]))
    case (Some(g), Some(rest)) => assert output + (g + rest) == (output + g) + rest;
    case _ =>
  }

  method DecodeGroups(input: seq<octet>) returns (r: Option<seq<octet>>)
    ensures r == Groups(input)
  {
    var fullGroups, remainder := |input| / 4, |input| % 4;
    var output := [];
    var i := 0;
    assert input[0..] == input;
    assert Groups(input).Some? ==> [] + Groups(input).value == Groups(input).value;
    while i < fullGroups
      invariant 0 <= i <= fullGroups
      invariant Finish(output, input[4 * i..]) == Groups(input)
    {
      var off := i * 4;
      ghost var s := input[off..];
      FinishGroup(output, s);
      assert s[4..] == input[4 * (i + 1)..] && s[..4] == input[off..off + 4];
      var g := DecodeGroup(input[off..off + 4]);
      if g.None? {
        return None;
      }
      output := output + g.value;
      i := i + 1;
    }
    if remainder >= 2 {
      assert input[4 * i..] == input[fullGroups * 4..];
      var g := DecodeGroup(input[fullGroups * 4..]);
      if g.None? {
        return None;
      }
      output := output + g.value;
    } else {
      assert output + [] == output;
    }
    r := Some(output);
  }

  // Two, three or four characters, looked up one by one.
  method DecodeGroup(s: seq<octet>) returns (r: Option<seq<octet>>)
    requires 2 <= |s| <= 4
    ensures r == Group(s)
  {
    var a, b := ValueOf(s[0]), ValueOf(s[1]);
    if a < 0 || b < 0 {
      return None;
    }
    var output := [Byte0(a, b)];
    if |s| > 2 {
      var c := ValueOf(s[2]);
      if c < 0 {
        return None;
      }
      output := output + [Byte1(b, c)];
      assert output == [Byte0(a, b), Byte1(b, c)];
      if |s| > 3 {
        var d := ValueOf(s[3]);
        if d < 0 {
          return None;
        }
        output := output + [Byte2(c, d)];
        assert output == [Byte0(a, b), Byte1(b, c), Byte2(c, d)];
      }
    }
    r := Some(output);
  }

  // ---- Round trip ----

  lemma CharValue(x: sextet)
    ensures ValueOf(CharOf(x)) == x && CharOf(x) != PAD
  {
  }

  lemma GroupBytes(x: octet, y: octet, z: octet)
    ensures var a, b, c, d := x / 4, x % 4 * 16 + y / 16, y % 16 * 4 + z / 64, z % 64;
            Byte0(a, b) == x && Byte1(b, c) == y && Byte2(c, d) == z
  {
    var b, c := x % 4 * 16 + y / 16, y % 16 * 4 + z / 64;
    assert b / 16 == x % 4 && b % 16 == y / 16;
    assert c / 4 == y % 16 && c % 4 == z / 64;
  }

  lemma GroupValues(x: octet, y: octet, z: octet)
    ensures var g := EncodeGroup(x, y, z);
            && ValueOf(g[0]) == x / 4 && ValueOf(g[1]) == x % 4 * 16 + y / 16
            && ValueOf(g[2]) == y % 16 * 4 + z / 64 && ValueOf(g[3]) == z % 64
            && PAD !in g
  {
    CharValue(x / 4);
    CharValue(x % 4 * 16 + y / 16);
    CharValue(y % 16 * 4 + z / 64);
    CharValue(z % 64);
  }

  // Group looks at values only: sextets a, b, c, d that stand for the bytes x, y, z.
  lemma GroupOfValues(s: seq<octet>, a: sextet, b: sextet, c: sextet, d: sextet, x: octet, y: octet, z: octet)
    requires 2 <= |s| <= 4 && ValueOf(s[0]) == a && ValueOf(s[1]) == b
    requires (|s| > 2 ==> ValueOf(s[2]) == c) && (|s| > 3 ==> ValueOf(s[3]) == d)
    requires Byte0(a, b) == x && Byte1(b, c) == y && Byte2(c, d) == z
    ensures Group(s) == Some([x, y, z][..|s| - 1])
  {
    assert [x, y, z][..1] == [x] && [x, y, z][..2] == [x, y] && [x, y, z][..3] == [x, y, z];
  }

  lemma GroupRoundTrip(x: octet, y: octet, z: octet, k: nat)
    requires 2 <= k <= 4
    ensures Group(EncodeGroup(x, y, z)[..k]) == Some([x, y, z][..k - 1])
    ensures PAD !in EncodeGroup(x, y, z)[..k]
  {
    GroupBytes(x, y, z);
    GroupValues(x, y, z);
    var s := EncodeGroup(x, y, z)[..k];
    GroupOfValues(s, x / 4, x % 4 * 16 + y / 16, y % 16 * 4 + z / 64, z % 64, x, y, z);
  }

  lemma GroupUndoesEncode(chunk: seq<octet>)
    requires 1 <= |chunk| <= 3
    ensures Group(EncodeChunk(chunk)) == Some(chunk)
    ensures PAD !in EncodeChunk(chunk)
  {
    var x, y, z := chunk[0], if |chunk| > 1 then chunk[1] else 0, if |chunk| > 2 then chunk[2] else 0;
    GroupRoundTrip(x, y, z, |chunk| + 1);
    assert [x, y, z][..|chunk|] == chunk;
  }

  lemma {:induction false} GroupsUndoEncode(data: seq<octet>)
    ensures Groups(Encode(data)) == Some(data)
    ensures PAD !in Encode(data)
  {
    if data != [] {
      var k := ChunkSize(data);
      var chunk, more := data[..k], data[k..];
      GroupUndoesEncode(chunk);
      GroupsUndoEncode(more);
      assert chunk + more == data;
      if k == 3 {
        GroupsCons(EncodeChunk(chunk), Encode(more));
      } else {
        assert more == [] && chunk == data;
        assert Encode(data) == EncodeChunk(chunk);
      }
    }
  }

  lemma GroupsCons(g: seq<octet>, rest: seq<octet>)
    requires |g| == 4 && Group(g).Some? && Groups(rest).Some?
    ensures Groups(g + rest) == Some(Group(g).value + Groups(rest).value)
  {
    assert (g + rest)[..4] == g && (g + rest)[4..] == rest;
  }

  /** Decoding undoes encoding, for every byte string. */
  lemma RoundTrip(data: seq<octet>)
    ensures Decode(Encode(data)) == Some(data)
  {
    GroupsUndoEncode(data);
  }

  // ---- What the decoder does not look at ----

  /** Any amount of padding may follow. */
  lemma {:induction false} PaddingIgnored(s: seq<octet>, n: nat)
    ensures Decode(s + seq(n, _ => PAD)) == Decode(s)
    decreases n
  {
    if n == 0 {
      assert s + seq(n, _ => PAD) == s;
    } else {
      PaddingIgnored(s, n - 1);
      var t := s + seq(n, _ => PAD);
      assert t[..|t| - 1] == s + seq(n - 1, _ => PAD);
    }
  }

  // The standard alphabet's character for the same value.
  function Standard(c: octet): octet
  {
    if c == 45 then 43 else if c == 95 then 47 else c
  }

  function ToStandard(s: seq<octet>): (t: seq<octet>)
    ensures |t| == |s|
  {
    seq(|s|, i requires 0 <= i < |s| => Standard(s[i]))
  }

  lemma GroupStandard(s: seq<octet>)
    requires 2 <= |s| <= 4
    ensures Group(ToStandard(s)) == Group(s)
  {
    assert forall i :: 0 <= i < |s| ==> ValueOf(ToStandard(s)[i]) == ValueOf(s[i]);
  }

  lemma {:induction false} GroupsStandard(s: seq<octet>)
    ensures Groups(ToStandard(s)) == Groups(s)
  {
    if |s| >= 4 {
      GroupsStandard(s[4..]);
      assert ToStandard(s)[4..] == ToStandard(s[4..]);
      GroupStandard(s[..4]);
      assert ToStandard(s)[..4] == ToStandard(s[..4]);
    } else if |s| >= 2 {
      GroupStandard(s);
    }
  }

  lemma {:induction false} StripStandard(s: seq<octet>)
    ensures Strip(ToStandard(s)) == ToStandard(Strip(s))
  {
    if s == [] {
    } else {
      StripStandard(s[..|s| - 1]);
      assert ToStandard(s)[..|s| - 1] == ToStandard(s[..|s| - 1]);
    }
  }

  /** The standard alphabet reads the same as the url-safe one. */
  lemma AlphabetsAgree(s: seq<octet>)
    ensures Decode(ToStandard(s)) == Decode(s)
  {
    StripStandard(s);
    GroupsStandard(Strip(s));
  }

  // How many characters the decoder checks: all but a lone one after the last full group.
  function Checked(n: nat): nat
  {
    if n % 4 == 1 then n - 1 else n
  }

  // A checked character that is in neither alphabet.
  ghost predicate HasForeign(s: seq<octet>)
  {
    exists i :: 0 <= i < Checked(|s|) && !InAlphabet(s[i])
  }

  lemma ForeignIff(s: seq<octet>)
    requires |s| >= 4
    ensures HasForeign(s) <==> HasForeign(s[..4]) || HasForeign(s[4..])
  {
    assert Checked(|s|) == 4 + Checked(|s| - 4);
    if i :| 0 <= i < Checked(|s|) && !InAlphabet(s[i]) {
      assert i < 4 ==> s[..4][i] == s[i];
      assert i >= 4 ==> s[4..][i - 4] == s[i];
    }
    if j :| 0 <= j < Checked(|s[4..]|) && !InAlphabet(s[4..][j]) {
      assert s[j + 4] == s[4..][j];
    }
    if j :| 0 <= j < 4 && !InAlphabet(s[..4][j]) {
      assert s[j] == s[..4][j];
    }
  }

  lemma GroupFailsIff(s: seq<octet>)
    requires 2 <= |s| <= 4
    ensures Group(s).None? <==> HasForeign(s)
  {
    assert HasForeign(s) <==> !InAlphabet(s[0]) || !InAlphabet(s[1]) || (|s| > 2 && !InAlphabet(s[2]))
                              || (|s| > 3 && !InAlphabet(s[3]));
  }

  lemma {:induction false} GroupsFailIff(s: seq<octet>)
    ensures Groups(s).None? <==> HasForeign(s)
  {
    if |s| < 4 {
      if |s| >= 2 {
        GroupFailsIff(s);
      }
    } else {
      hide HasForeign, Group;
      GroupsFailIff(s[4..]);
      GroupFailsIff(s[..4]);
      ForeignIff(s);
    }
  }

  /** Exactly when decoding fails: some checked character, padding aside, is in neither alphabet. */
  lemma DecodeFailsIff(s: seq<octet>)
    ensures Decode(s).None? <==> HasForeign(Strip(s))
  {
    hide Groups, Strip, HasForeign;
    GroupsFailIff(Strip(s));
  }

  /** So an invalid character is not always reported: a lone one after the full groups is dropped. */
  lemma LoneCharacterIgnored(s: seq<octet>, c: octet)
    requires |s| % 4 == 0 && c != PAD
    ensures Decode(s + [c]) == Groups(s)
  {
    assert Strip(s + [c]) == s + [c];
    GroupsDropLone(s, c);
  }

  lemma {:induction false} GroupsDropLone(s: seq<octet>, c: octet)
    requires |s| % 4 == 0
    ensures Groups(s + [c]) == Groups(s)
  {
    if |s| < 4 {
    } else {
      GroupsDropLone(s[4..], c);
      assert (s + [c])[4..] == s[4..] + [c] && (s + [c])[..4] == s[..4];
    }
  }
}
