/**
 The V4 token format of NUT-00 in literal bytes. First a grammar, which says what every body means: which key is which
 field, in any order, with unknown keys skipped and maps and arrays of either length form; the decoder of module `Token`
 is proved to accept exactly what the grammar gives a meaning, with that meaning. Then the layout that the encoder
 writes.
 */
module TokenFormat {
  import opened Octets
  import opened Results
  import opened Cbor
  import opened CborFormat
  import opened Token
  import Base64Url

  // ---- The DLEQ triple: "e", "s", "r" ----

  ghost predicate ScalarAt(lib: Lib, x: Bytes, s: Bytes, r: Bytes)
  {
    exists b :: StrAt(2, b, s, r) && lib.scalar(b) == Some(x)
  }

  ghost predicate DleqMeans(lib: Lib, f: DleqFields, key: Bytes, s: Bytes, f': DleqFields, r: Bytes)
  {
    if key == [0x65] then f'.e.Some? && ScalarAt(lib, f'.e.value, s, r) && f' == f.(e := f'.e)
    else if key == [0x73] then f'.s.Some? && ScalarAt(lib, f'.s.value, s, r) && f' == f.(s := f'.s)
    else if key == [0x72] then f'.r.Some? && ScalarAt(lib, f'.r.value, s, r) && f' == f.(r := f'.r)
    else lib.skip(s) == Some(r) && f' == f
  }

  ghost function DleqMeaning(lib: Lib): Meaning<DleqFields> { (f, k, s, f', r) => DleqMeans(lib, f, k, s, f', r) }

  ghost predicate DleqAt(lib: Lib, d: Dleq, s: Bytes, r: Bytes)
  {
    MapAt(DleqMeaning(lib), DleqFields(None, None, None), s, DleqFields(Some(d.e), Some(d.s), Some(d.r)), r)
  }

  lemma ScalarIff(lib: Lib, s: Bytes, x: Bytes, r: Bytes)
    ensures Scalar(lib, s) == Got(x, r) <==> ScalarAt(lib, x, s, r)
  {
    hide StrAt;
    if Scalar(lib, s) == Got(x, r) {
      StrIff(2, s, ByteStr(s).value, r);
    }
    if b :| StrAt(2, b, s, r) && lib.scalar(b) == Some(x) {
      StrIff(2, s, b, r);
    }
  }

  lemma DleqEntryIff(lib: Lib, f: DleqFields, key: Bytes, s: Bytes, f': DleqFields, r: Bytes)
    ensures DleqEntry(lib, f, key, s) == Got(f', r) <==> DleqMeans(lib, f, key, s, f', r)
  {
    hide Scalar, ScalarAt;
    if f'.e.Some? {
      ScalarIff(lib, s, f'.e.value, r);
    }
    if f'.s.Some? {
      ScalarIff(lib, s, f'.s.value, r);
    }
    if f'.r.Some? {
      ScalarIff(lib, s, f'.r.value, r);
    }
  }

  lemma OnDleqImplements(lib: Lib)
    ensures Implements(OnDleq(lib), DleqMeaning(lib))
  {
    hide DleqEntry, DleqMeans;
    forall f, key, s, f', r ensures OnDleq(lib)(f, key, s) == Got(f', r) <==> DleqMeaning(lib)(f, key, s, f', r) {
      DleqEntryIff(lib, f, key, s, f', r);
    }
  }

  lemma DecodeDleqIff(lib: Lib, s: Bytes, d: Dleq, r: Bytes)
    ensures DecodeDleq(lib, s) == Got(d, r) <==> DleqAt(lib, d, s, r)
  {
    hide ForeachKey, MapAt, Implements, OnDleq, DleqMeaning;
    OnDleqWithin(lib);
    OnDleqImplements(lib);
    var none, f := DleqFields(None, None, None), DleqFields(Some(d.e), Some(d.s), Some(d.r));
    ForeachKeyIff(OnDleq(lib), DleqMeaning(lib), none, s, f, r);
  }

  // ---- A proof: "a", "s", "c", "d" ----

  ghost predicate ProofMeans(lib: Lib, f: ProofFields, key: Bytes, s: Bytes, f': ProofFields, r: Bytes)
  {
    if key == [0x61] then f'.amount.Some? && HeadAt(0, f'.amount.value, s, r) && f' == f.(amount := f'.amount)
    else if key == [0x73] then f'.secret.Some? && TextAt(f'.secret.value, s, r) && f' == f.(secret := f'.secret)
    else if key == [0x63] then f'.c.Some? && StrAt(2, f'.c.value, s, r) && f' == f.(c := f'.c)
    else if key == [0x64] then f'.dleq.Some? && DleqAt(lib, f'.dleq.value, s, r) && f' == f.(dleq := f'.dleq)
    else lib.skip(s) == Some(r) && f' == f
  }

  ghost function ProofMeaning(lib: Lib): Meaning<ProofFields> { (f, k, s, f', r) => ProofMeans(lib, f, k, s, f', r) }

  // The keyset id is not part of it.
  ghost predicate ProofAt(lib: Lib, p: Proof, s: Bytes, r: Bytes)
  {
    && p.keysetId == []
    && MapAt(ProofMeaning(lib), ProofFields(None, None, None, None), s,
             ProofFields(Some(p.amount), Some(p.secret), Some(p.c), p.dleq), r)
  }

  lemma ProofEntryIff(lib: Lib, f: ProofFields, key: Bytes, s: Bytes, f': ProofFields, r: Bytes)
    ensures ProofEntry(lib, f, key, s) == Got(f', r) <==> ProofMeans(lib, f, key, s, f', r)
  {
    hide Text, TextAt, StrAt, HeadAt, DleqAt, DecodeDleq, Str, Info, Argument;
    if f'.amount.Some? {
      HeadIff(0, s, f'.amount.value, r);
    }
    if f'.secret.Some? {
      TextIff(s, f'.secret.value, r);
    }
    if f'.c.Some? {
      StrIff(2, s, f'.c.value, r);
    }
    if f'.dleq.Some? {
      DecodeDleqIff(lib, s, f'.dleq.value, r);
    }
  }

  lemma OnProofImplements(lib: Lib)
    ensures Implements(OnProof(lib), ProofMeaning(lib))
  {
    hide ProofEntry, ProofMeans;
    forall f, key, s, f', r ensures OnProof(lib)(f, key, s) == Got(f', r) <==> ProofMeaning(lib)(f, key, s, f', r) {
      ProofEntryIff(lib, f, key, s, f', r);
    }
  }

  lemma DecodeProofIff(lib: Lib, s: Bytes, p: Proof, r: Bytes)
    ensures DecodeProof(lib, s) == Got(p, r) <==> ProofAt(lib, p, s, r)
  {
    hide ForeachKey, MapAt, Implements, OnProof, ProofMeaning;
    OnProofWithin(lib);
    OnProofImplements(lib);
    var f := ProofFields(Some(p.amount), Some(p.secret), Some(p.c), p.dleq);
    ForeachKeyIff(OnProof(lib), ProofMeaning(lib), NO_PROOF, s, f, r);
  }

  // ---- A group: "i", "p" ----

  ghost function ProofForm(lib: Lib): Form<Proof> { (p, s, r) => ProofAt(lib, p, s, r) }

  ghost predicate GroupMeans(lib: Lib, f: GroupFields, key: Bytes, s: Bytes, f': GroupFields, r: Bytes)
  {
    if key == [0x69] then f'.keysetId.Some? && HexAt(f'.keysetId.value, s, r) && f' == f.(keysetId := f'.keysetId)
    else if key == [0x70] then
      f'.proofs.Some? && ArrayAt(ProofForm(lib), f'.proofs.value, s, r) && f' == f.(proofs := f'.proofs)
    else lib.skip(s) == Some(r) && f' == f
  }

  // The id is a byte string, shown in hex.
  ghost predicate HexAt(id: Bytes, s: Bytes, r: Bytes)
  {
    exists b :: StrAt(2, b, s, r) && Hex(b) == id
  }

  // Two digits a byte, from "0123456789abcdef".
  function Hex(b: Bytes): Bytes
  {
    seq(2 * |b|, i requires 0 <= i < 2 * |b| =>
      var x: nat := if i % 2 == 0 then b[i / 2] / 16 else b[i / 2] % 16;
      [48, 49, 50, 51, 52, 53, 54, 55, 56, 57, 97, 98, 99, 100, 101, 102][x])
  }

  lemma {:induction false} HexEncodeIsHex(b: Bytes)
    ensures HexEncode(b) == Hex(b)
  {
    if b == [] {
    } else {
      HexEncodeIsHex(b[1..]);
      var h, rest := Hex(b), Hex(b[1..]);
      forall i | 2 <= i < 2 * |b| ensures h[i] == rest[i - 2] {
        assert (i - 2) / 2 == i / 2 - 1 && (i - 2) % 2 == i % 2;
      }
      HexDigitIs(b[0] / 16);
      HexDigitIs(b[0] % 16);
      assert h == [h[0], h[1]] + rest;
    }
  }

  lemma HexDigitIs(x: nat)
    requires x < 16
    ensures HexDigit(x) == [48, 49, 50, 51, 52, 53, 54, 55, 56, 57, 97, 98, 99, 100, 101, 102][x]
  {
  }

  ghost function GroupMeaning(lib: Lib): Meaning<GroupFields> { (f, k, s, f', r) => GroupMeans(lib, f, k, s, f', r) }

  // Every proof is given the group's id.
  ghost predicate GroupAt(lib: Lib, g: Group, s: Bytes, r: Bytes)
  {
    exists ps: seq<Proof> ::
      && MapAt(GroupMeaning(lib), GroupFields(None, None), s, GroupFields(Some(g.keysetId), Some(ps)), r)
      && |g.proofs| == |ps| && forall i :: 0 <= i < |ps| ==> g.proofs[i] == ps[i].(keysetId := g.keysetId)
  }

  // Elements are maps, so they do not begin with the break.
  lemma MapIsNoBreak<A(!new)>(on: Handler<A>, a: A, s: Bytes)
    requires KeepsWithin(on) && ForeachKey(on, a, s).Got?
    ensures s != [] && s[0] != BREAK
  {
  }

  lemma ProofDecoderReads(lib: Lib)
    ensures Reads(ProofDecoder(lib), ProofForm(lib))
  {
    hide ForeachKey, ProofAt;
    forall p, s, r ensures ProofDecoder(lib)(s) == Got(p, r) <==> ProofForm(lib)(p, s, r) {
      DecodeProofIff(lib, s, p, r);
    }
    forall s ensures ProofDecoder(lib)(s).Got? ==> s != [] && s[0] != BREAK {
      OnProofWithin(lib);
      if DecodeProof(lib, s).Got? {
        MapIsNoBreak(OnProof(lib), NO_PROOF, s);
      }
    }
  }

  lemma IdIff(s: Bytes, id: Bytes, r: Bytes)
    ensures (ByteStr(s).Got? && HexEncode(ByteStr(s).value) == id && ByteStr(s).rest == r) <==> HexAt(id, s, r)
  {
    hide StrAt, Hex, HexEncode, Str;
    if ByteStr(s).Got? {
      StrIff(2, s, ByteStr(s).value, ByteStr(s).rest);
      HexEncodeIsHex(ByteStr(s).value);
    }
    if b :| StrAt(2, b, s, r) && Hex(b) == id {
      StrIff(2, s, b, r);
    }
  }

  lemma GroupEntryIff(lib: Lib, f: GroupFields, key: Bytes, s: Bytes, f': GroupFields, r: Bytes)
    ensures GroupEntry(lib, f, key, s) == Got(f', r) <==> GroupMeans(lib, f, key, s, f', r)
  {
    hide HexAt, ArrayAt, Array, HexEncode, Reads, ByteStr, ProofForm, ProofDecoder;
    ProofDecoderConsumes(lib);
    ProofDecoderReads(lib);
    if f'.keysetId.Some? {
      IdIff(s, f'.keysetId.value, r);
    }
    if f'.proofs.Some? {
      ArrayIff(ProofDecoder(lib), ProofForm(lib), s, f'.proofs.value, r);
    }
  }

  lemma OnGroupImplements(lib: Lib)
    ensures Implements(OnGroup(lib), GroupMeaning(lib))
  {
    hide GroupEntry, GroupMeans;
    forall f, key, s, f', r ensures OnGroup(lib)(f, key, s) == Got(f', r) <==> GroupMeaning(lib)(f, key, s, f', r) {
      GroupEntryIff(lib, f, key, s, f', r);
    }
  }

  lemma DecodeGroupIff(lib: Lib, s: Bytes, g: Group, r: Bytes)
    ensures DecodeGroup(lib, s) == Got(g, r) <==> GroupAt(lib, g, s, r)
  {
    hide ForeachKey, MapAt, Implements, OnGroup, GroupMeaning;
    OnGroupWithin(lib);
    OnGroupImplements(lib);
    var on, means := OnGroup(lib), GroupMeaning(lib);
    if DecodeGroup(lib, s) == Got(g, r) {
      var f := ForeachKey(on, NO_GROUP, s).value;
      ForeachKeyIff(on, means, NO_GROUP, s, f, r);
      assert f == GroupFields(Some(g.keysetId), Some(f.proofs.value));
    }
    if GroupAt(lib, g, s, r) {
      var ps: seq<Proof> :|
        && MapAt(means, NO_GROUP, s, GroupFields(Some(g.keysetId), Some(ps)), r)
        && |g.proofs| == |ps| && forall i :: 0 <= i < |ps| ==> g.proofs[i] == ps[i].(keysetId := g.keysetId);
      ForeachKeyIff(on, means, NO_GROUP, s, GroupFields(Some(g.keysetId), Some(ps)), r);
      assert g.proofs == Attach(g.keysetId, ps);
    }
  }

  // ---- A token: "m", "u", "d", "t" ----

  ghost function GroupForm(lib: Lib): Form<Group> { (g, s, r) => GroupAt(lib, g, s, r) }

  ghost predicate TokenMeans(lib: Lib, f: TokenFields, key: Bytes, s: Bytes, f': TokenFields, r: Bytes)
  {
    if key == [0x6D] then f'.mint.Some? && TextAt(f'.mint.value, s, r) && f' == f.(mint := f'.mint)
    else if key == [0x75] then f'.unit.Some? && TextAt(f'.unit.value, s, r) && f' == f.(unit := f'.unit)
    else if key == [0x64] then f'.memo.Some? && TextAt(f'.memo.value, s, r) && f' == f.(memo := f'.memo)
    else if key == [0x74] then
      f'.groups.Some? && ArrayAt(GroupForm(lib), f'.groups.value, s, r) && f' == f.(groups := f'.groups)
    else lib.skip(s) == Some(r) && f' == f
  }

  ghost function TokenMeaning(lib: Lib): Meaning<TokenFields> { (f, k, s, f', r) => TokenMeans(lib, f, k, s, f', r) }

  ghost predicate TokenAt(lib: Lib, t: TokenV4, s: Bytes, r: Bytes)
  {
    MapAt(TokenMeaning(lib), TokenFields(None, None, None, None), s,
          TokenFields(Some(t.mint), Some(t.unit), t.memo, Some(t.groups)), r)
  }

  lemma GroupDecoderReads(lib: Lib)
    ensures Reads(GroupDecoder(lib), GroupForm(lib))
  {
    hide ForeachKey, GroupAt;
    forall g, s, r ensures GroupDecoder(lib)(s) == Got(g, r) <==> GroupForm(lib)(g, s, r) {
      DecodeGroupIff(lib, s, g, r);
    }
    forall s ensures GroupDecoder(lib)(s).Got? ==> s != [] && s[0] != BREAK {
      OnGroupWithin(lib);
      if DecodeGroup(lib, s).Got? {
        MapIsNoBreak(OnGroup(lib), NO_GROUP, s);
      }
    }
  }

  lemma TokenEntryIff(lib: Lib, f: TokenFields, key: Bytes, s: Bytes, f': TokenFields, r: Bytes)
    ensures TokenEntry(lib, f, key, s) == Got(f', r) <==> TokenMeans(lib, f, key, s, f', r)
  {
    hide Text, TextAt, ArrayAt, Array, Reads, GroupForm, GroupDecoder;
    GroupDecoderConsumes(lib);
    GroupDecoderReads(lib);
    if f'.mint.Some? {
      TextIff(s, f'.mint.value, r);
    }
    if f'.unit.Some? {
      TextIff(s, f'.unit.value, r);
    }
    if f'.memo.Some? {
      TextIff(s, f'.memo.value, r);
    }
    if f'.groups.Some? {
      ArrayIff(GroupDecoder(lib), GroupForm(lib), s, f'.groups.value, r);
    }
  }

  lemma OnTokenImplements(lib: Lib)
    ensures Implements(OnToken(lib), TokenMeaning(lib))
  {
    hide TokenEntry, TokenMeans;
    forall f, key, s, f', r ensures OnToken(lib)(f, key, s) == Got(f', r) <==> TokenMeaning(lib)(f, key, s, f', r) {
      TokenEntryIff(lib, f, key, s, f', r);
    }
  }

  /** What the decoder makes of any bytes: a token if and only if the grammar says that they begin with it. */
  lemma DecodeBodyIff(lib: Lib, s: Bytes, t: TokenV4)
    ensures DecodeBody(lib, s) == Some(t) <==> exists r :: TokenAt(lib, t, s, r)
  {
    hide ForeachKey, MapAt, Implements, OnToken, TokenMeaning;
    OnTokenWithin(lib);
    OnTokenImplements(lib);
    var on, means := OnToken(lib), TokenMeaning(lib);
    var f := TokenFields(Some(t.mint), Some(t.unit), t.memo, Some(t.groups));
    if DecodeBody(lib, s) == Some(t) {
      var r := ForeachKey(on, NO_TOKEN, s).rest;
      ForeachKeyIff(on, means, NO_TOKEN, s, f, r);
      assert TokenAt(lib, t, s, r);
    }
    if r :| TokenAt(lib, t, s, r) {
      ForeachKeyIff(on, means, NO_TOKEN, s, f, r);
    }
  }

  // ---- The prefixes ----

  const CASHU_B_TEXT: Bytes := [0x63, 0x61, 0x73, 0x68, 0x75, 0x42]
  const CRAW_B_TEXT: Bytes := [0x63, 0x72, 0x61, 0x77, 0x42]

  // What follows a prefix is base64url of a body, or else a raw body.
  ghost predicate PayloadMeans(lib: Lib, t: TokenV4, x: Bytes)
  {
    var body := Base64Url.Decode(x);
    if body.Some? && exists u, r :: TokenAt(lib, u, body.value, r)
    then exists r :: TokenAt(lib, t, body.value, r)
    else exists r :: TokenAt(lib, t, x, r)
  }

  lemma DecodesIff(lib: Lib, s: Bytes)
    ensures DecodeBody(lib, s).Some? <==> exists u, r :: TokenAt(lib, u, s, r)
  {
    hide TokenAt, DecodeBody;
    if DecodeBody(lib, s).Some? {
      DecodeBodyIff(lib, s, DecodeBody(lib, s).value);
    }
    if u, r :| TokenAt(lib, u, s, r) {
      DecodeBodyIff(lib, s, u);
    }
  }

  /** What `decode_token` makes of any bytes at all, with either prefix or none. */
  lemma DecodeTokenIff(lib: Lib, data: Bytes, x: Bytes, t: TokenV4)
    requires || data == CASHU_B_TEXT + x
             || data == CRAW_B_TEXT + x
             || (data == x && !(CASHU_B_TEXT <= data) && !(CRAW_B_TEXT <= data))
    ensures DecodeToken(lib, data) == Some(t) <==> PayloadMeans(lib, t, x)
  {
    hide DecodeBody, TokenAt, Base64Url.Decode;
    PrefixStripped(data, x);
    DecodeBodyIff(lib, x, t);
    var body := Base64Url.Decode(x);
    if body.Some? {
      DecodesIff(lib, body.value);
      DecodeBodyIff(lib, body.value, t);
    }
  }

  lemma PrefixStripped(data: Bytes, x: Bytes)
    requires || data == CASHU_B_TEXT + x
             || data == CRAW_B_TEXT + x
             || (data == x && !(CASHU_B_TEXT <= data) && !(CRAW_B_TEXT <= data))
    ensures Unprefixed(data) == x
  {
    assert CASHU_B == CASHU_B_TEXT && CRAW_B == CRAW_B_TEXT;
    if data == CRAW_B_TEXT + x {
      assert data[1] == 0x72;
    }
  }

  // ---- What the encoder writes ----

  // A one-character key.
  lemma KeyBytes(c: octet, tail: Bytes)
    ensures PutStr(3, [c], tail) == [0x61, c] + tail
  {
    assert BeBytes(1, 0) == [];
    assert Head(3, 1) == [0x61];
    assert [0x61] + ([c] + tail) == [0x61, c] + tail;
  }

  lemma SmallCount(m: major, n: nat, tail: Bytes)
    requires n < 24
    ensures PutCount(m, n, tail) == [32 * m + n] + tail
  {
    assert BeBytes(n, 0) == [];
    assert Head(m, n) == [32 * m + n];
  }

  lemma ScalarBytes(b: Bytes, tail: Bytes)
    requires |b| == 32
    ensures PutStr(2, b, tail) == [0x58, 0x20] + b + tail
  {
    assert BeBytes(32, 1) == BeBytes(0, 0) + [32] == [32];
    assert Head(2, 32) == [0x58, 0x20];
    assert [0x58, 0x20] + (b + tail) == [0x58, 0x20] + b + tail;
  }

  /** The bytes of a DLEQ triple. */
  lemma DleqLayout(d: Dleq, tail: Bytes)
    requires |d.e| == |d.s| == |d.r| == 32
    ensures PutDleq(d, tail) ==
            [0xA3] + ([0x61, 0x65, 0x58, 0x20] + d.e + ([0x61, 0x73, 0x58, 0x20] + d.s +
            ([0x61, 0x72, 0x58, 0x20] + d.r + tail)))
  {
    hide PutStr, PutCount;
    var r3 := PutStr(2, d.r, tail);
    var r2 := PutStr(2, d.s, PutStr(3, R, r3));
    ScalarEntry(0x72, d.r, tail);
    ScalarEntry(0x73, d.s, PutStr(3, R, r3));
    ScalarEntry(0x65, d.e, PutStr(3, S, r2));
    SmallCount(5, 3, PutStr(3, E, PutStr(2, d.e, PutStr(3, S, r2))));
  }

  lemma ScalarEntry(c: octet, b: Bytes, tail: Bytes)
    requires |b| == 32
    ensures PutStr(3, [c], PutStr(2, b, tail)) == [0x61, c, 0x58, 0x20] + b + tail
  {
    hide PutStr;
    KeyBytes(c, PutStr(2, b, tail));
    ScalarBytes(b, tail);
    assert [0x61, c] + ([0x58, 0x20] + b + tail) == [0x61, c, 0x58, 0x20] + b + tail;
  }

  /** The bytes of a proof. */
  lemma ProofLayout(lib: Lib, p: Proof, tail: Bytes)
    requires ProofTyped(lib, p)
    ensures PutProof(lib, p, tail) ==
            var dleq := if p.dleq.Some? then [0x61, 0x64] + PutDleq(p.dleq.value, tail) else tail;
            [if p.dleq.Some? then 0xA4 else 0xA3] +
            ([0x61, 0x61] + PutU64(p.amount, [0x61, 0x73] + PutStr(3, p.secret, [0x61, 0x63] + PutStr(2, p.c, dleq))))
  {
    hide PutStr, PutCount, PutU64, PutDleq, Utf8;
    var d := PutOptionalDleq(lib, p.dleq, tail);
    if p.dleq.Some? {
      KeyBytes(0x64, PutDleq(p.dleq.value, tail));
    }
    KeyBytes(0x63, PutStr(2, p.c, d));
    KeyBytes(0x73, PutStr(3, p.secret, PutStr(3, C, PutStr(2, p.c, d))));
    var all := PutU64(p.amount, PutStr(3, S, PutStr(3, p.secret, PutStr(3, C, PutStr(2, p.c, d)))));
    KeyBytes(0x61, all);
    SmallCount(5, if p.dleq.Some? then 4 else 3, PutStr(3, A, all));
  }

  /** The bytes of a group. */
  lemma GroupLayout(lib: Lib, g: Group, tail: Bytes)
    requires Writable(lib, g)
    ensures |HexDecode(g.keysetId).value| < U64_LIMIT
    ensures PutGroup(lib, g, tail) ==
            [0xA2] + ([0x61, 0x69] + PutStr(2, HexDecode(g.keysetId).value,
            [0x61, 0x70] + PutCount(4, |g.proofs|, PutProofs(lib, g.proofs, tail))))
  {
    hide PutStr, PutCount, HexDecode, ProofTyped;
    HexHalves(g.keysetId);
    var ps := PutCount(4, |g.proofs|, PutProofs(lib, g.proofs, tail));
    KeyBytes(0x70, ps);
    var id := PutStr(2, HexDecode(g.keysetId).value, PutStr(3, P, ps));
    KeyBytes(0x69, id);
    SmallCount(5, 2, PutStr(3, I, id));
  }

  /** The bytes of a token, and of its wire form. */
  lemma TokenLayout(lib: Lib, t: TokenV4)
    requires TokenTyped(lib, t) && EncodeToken(lib, t).Some?
    ensures forall i :: 0 <= i < |t.groups| ==> Writable(lib, t.groups[i])
    ensures EncodeToken(lib, t).value ==
            var groups := [0x61, 0x74] + PutCount(4, |t.groups|, PutGroups(lib, t.groups, []));
            var memo := if t.memo.Some? then [0x61, 0x64] + PutStr(3, t.memo.value, groups) else groups;
            [if t.memo.Some? then 0xA4 else 0xA3] +
            ([0x61, 0x6D] + PutStr(3, t.mint, [0x61, 0x75] + PutStr(3, t.unit, memo)))
    ensures EncodeTokenWire(lib, t) == Some(CASHU_B_TEXT + Base64Url.Encode(EncodeToken(lib, t).value))
  {
    hide PutStr, PutCount, GroupTyped, Utf8, HexDecode, Base64Url.Encode;
    forall i | 0 <= i < |t.groups| ensures Writable(lib, t.groups[i]) {
      assert GroupTyped(lib, t.groups[i]);
    }
    var gs := PutCount(4, |t.groups|, PutGroups(lib, t.groups, []));
    KeyBytes(0x74, gs);
    var memo := PutOptionalMemo(t.memo, PutStr(3, T, gs));
    if t.memo.Some? {
      KeyBytes(0x64, PutStr(3, t.memo.value, PutStr(3, T, gs)));
    }
    KeyBytes(0x75, PutStr(3, t.unit, memo));
    var rest := PutStr(3, t.mint, PutStr(3, U, PutStr(3, t.unit, memo)));
    KeyBytes(0x6D, rest);
    SmallCount(5, if t.memo.Some? then 4 else 3, PutStr(3, M, rest));
  }
}
