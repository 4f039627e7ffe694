/**
 The V4 token codec of NUT-00 (cashu-core-lite/src/token.rs): CBOR bodies, the `cashuB` wire form,
 and the decoder that accepts either.

 Strings are their UTF-8 bytes. Two things the codec gets from libraries are parameters: how one
 CBOR item is skipped, and which byte strings are curve scalars.
 */
module Token {
  import opened Octets
  import opened Results
  import opened Cbor
  import Base64Url

  datatype RawLib = Lib(skip: Bytes -> Option<Bytes>, scalar: Bytes -> Option<Bytes>) {
    // Skipping never moves backwards; a scalar is written in a canonical form that reads as itself.
    ghost predicate Sound()
    {
      && (forall s :: skip(s).Some? ==> |skip(s).value| <= |s|)
      && (forall b :: scalar(b).Some? ==> |scalar(b).value| == 32 && scalar(scalar(b).value) == scalar(b))
    }
  }

  type Lib = l: RawLib | l.Sound() ghost witness Lib(_ => None, _ => None)

  datatype Dleq = Dleq(e: Bytes, s: Bytes, r: Bytes)
  datatype Proof = Proof(amount: nat, keysetId: Bytes, secret: Bytes, c: Bytes, dleq: Option<Dleq>)
  datatype Group = Group(keysetId: Bytes, proofs: seq<Proof>)
  datatype TokenV4 = TokenV4(mint: Bytes, unit: Bytes, memo: Option<Bytes>, groups: seq<Group>)

  // Single-character keys.
  const A: Bytes := [97]
  const C: Bytes := [99]
  const D: Bytes := [100]
  const E: Bytes := [101]
  const I: Bytes := [105]
  const M: Bytes := [109]
  const P: Bytes := [112]
  const R: Bytes := [114]
  const S: Bytes := [115]
  const T: Bytes := [116]
  const U: Bytes := [117]

  // ---- Hex ----

  function HexDigit(x: nat): octet requires x < 16 { if x < 10 then 48 + x else 87 + x }

  function HexValue(c: octet): Option<nat>
  {
    if 48 <= c < 58 then Some(c - 48)
    else if 97 <= c < 103 then Some(c - 87)
    else if 65 <= c < 71 then Some(c - 55)
    else None
  }

  function HexEncode(b: Bytes): Bytes
  {
    if b == [] then [] else [HexDigit(b[0] / 16), HexDigit(b[0] % 16)] + HexEncode(b[1..])
  }

  function HexDecode(h: Bytes): Option<Bytes>
  {
    if h == [] then Some([])
    else if |h| == 1 then None
    else
      match (HexValue(h[0]), HexValue(h[1]), HexDecode(h[2..]))
      case (Some(x), Some(y), Some(rest)) => Some([(16 * x + y) % 256] + rest)
      case _ => None
  }

  lemma HexByte(c: octet)
    ensures var (x, y) := (HexValue(HexDigit(c / 16)), HexValue(HexDigit(c % 16)));
            x.Some? && y.Some? && (16 * x.value + y.value) % 256 == c
  {
  }

  lemma {:induction false} HexRoundTrip(b: Bytes)
    ensures HexDecode(HexEncode(b)) == Some(b)
  {
    hide HexDigit, HexValue;
    if b == [] {
    } else {
      HexRoundTrip(b[1..]);
      var h := HexEncode(b);
      assert h[2..] == HexEncode(b[1..]);
      HexByte(b[0]);
      assert [b[0]] + b[1..] == b;
    }
  }

  // ---- The DLEQ triple ----

  datatype DleqFields = DleqFields(e: Option<Bytes>, s: Option<Bytes>, r: Option<Bytes>)

  function Scalar(lib: Lib, s: Bytes): Step<Bytes>
  {
    match ByteStr(s)
    case Bad => Bad
    case Got(b, r) => if lib.scalar(b).Some? then Got(lib.scalar(b).value, r) else Bad
  }

  function Skip<T>(lib: Lib, value: T, s: Bytes): Step<T>
  {
    match lib.skip(s)
    case None => Bad
    case Some(r) => Got(value, r)
  }

  function DleqEntry(lib: Lib, f: DleqFields, key: Bytes, s: Bytes): Step<DleqFields>
  {
    if key == E || key == S || key == R then
      match Scalar(lib, s)
      case Bad => Bad
      case Got(b, r) =>
        Got(if key == E then f.(e := Some(b)) else if key == S then f.(s := Some(b)) else f.(r := Some(b)), r)
    else Skip(lib, f, s)
  }

  function OnDleq(lib: Lib): Handler<DleqFields> { (f, k, s) => DleqEntry(lib, f, k, s) }

  lemma OnDleqWithin(lib: Lib)
    ensures KeepsWithin(OnDleq(lib))
  {
    forall f, k, s ensures DleqEntry(lib, f, k, s).Got? ==> |DleqEntry(lib, f, k, s).rest| <= |s| {
      StrBounds(2, s);
    }
  }

  function DecodeDleq(lib: Lib, s: Bytes): Step<Dleq>
  {
    OnDleqWithin(lib);
    match ForeachKey(OnDleq(lib), DleqFields(None, None, None), s)
    case Bad => Bad
    case Got(f, rest) =>
      if f.e.Some? && f.s.Some? && f.r.Some? then Got(Dleq(f.e.value, f.s.value, f.r.value), rest) else Bad
  }

  function PutDleq(d: Dleq, tail: Bytes): Bytes
    requires |d.e| == |d.s| == |d.r| == 32
  {
    PutCount(5, 3,
      PutStr(3, E, PutStr(2, d.e,
      PutStr(3, S, PutStr(2, d.s,
      PutStr(3, R, PutStr(2, d.r, tail)))))))
  }

  // ---- Proofs ----

  datatype ProofFields = ProofFields(amount: Option<nat>, secret: Option<Bytes>, c: Option<Bytes>, dleq: Option<Dleq>)

  function ProofEntry(lib: Lib, f: ProofFields, key: Bytes, s: Bytes): Step<ProofFields>
  {
    if key == A then match U64(s) { case Bad => Bad case Got(n, r) => Got(f.(amount := Some(n)), r) }
    else if key == S then match Text(s) { case Bad => Bad case Got(b, r) => Got(f.(secret := Some(b)), r) }
    else if key == C then match ByteStr(s) { case Bad => Bad case Got(b, r) => Got(f.(c := Some(b)), r) }
    else if key == D then match DecodeDleq(lib, s) { case Bad => Bad case Got(d, r) => Got(f.(dleq := Some(d)), r) }
    else Skip(lib, f, s)
  }

  function OnProof(lib: Lib): Handler<ProofFields> { (f, k, s) => ProofEntry(lib, f, k, s) }

  lemma DecodeDleqConsumes(lib: Lib, s: Bytes)
    ensures DecodeDleq(lib, s).Got? ==> |DecodeDleq(lib, s).rest| < |s|
  {
    OnDleqWithin(lib);
    ForeachKeyConsumes(OnDleq(lib), DleqFields(None, None, None), s);
  }

  lemma OnProofWithin(lib: Lib)
    ensures KeepsWithin(OnProof(lib))
  {
    forall f, k, s ensures ProofEntry(lib, f, k, s).Got? ==> |ProofEntry(lib, f, k, s).rest| <= |s| {
      U64Bounds(s);
      StrBounds(2, s);
      StrBounds(3, s);
      DecodeDleqConsumes(lib, s);
    }
  }

  const NO_PROOF := ProofFields(None, None, None, None)

  // The keyset id is left empty; the enclosing group fills it in.
  function DecodeProof(lib: Lib, s: Bytes): Step<Proof>
  {
    OnProofWithin(lib);
    match ForeachKey(OnProof(lib), NO_PROOF, s)
    case Bad => Bad
    case Got(f, rest) =>
      if f.amount.Some? && f.secret.Some? && f.c.Some?
      then Got(Proof(f.amount.value, [], f.secret.value, f.c.value, f.dleq), rest)
      else Bad
  }

  // ---- Groups ----

  datatype GroupFields = GroupFields(keysetId: Option<Bytes>, proofs: Option<seq<Proof>>)

  function ProofDecoder(lib: Lib): Bytes -> Step<Proof> { s => DecodeProof(lib, s) }

  lemma ProofDecoderConsumes(lib: Lib)
    ensures Consumes(ProofDecoder(lib))
  {
    OnProofWithin(lib);
    forall s ensures DecodeProof(lib, s).Got? ==> |DecodeProof(lib, s).rest| < |s| {
      ForeachKeyConsumes(OnProof(lib), NO_PROOF, s);
    }
  }

  function GroupEntry(lib: Lib, f: GroupFields, key: Bytes, s: Bytes): Step<GroupFields>
  {
    ProofDecoderConsumes(lib);
    if key == I then match ByteStr(s) { case Bad => Bad case Got(b, r) => Got(f.(keysetId := Some(HexEncode(b))), r) }
    else if key == P then
      match Array(ProofDecoder(lib), s) { case Bad => Bad case Got(ps, r) => Got(f.(proofs := Some(ps)), r) }
    else Skip(lib, f, s)
  }

  function OnGroup(lib: Lib): Handler<GroupFields> { (f, k, s) => GroupEntry(lib, f, k, s) }

  lemma ArrayConsumes<T>(element: Bytes -> Step<T>, s: Bytes)
    requires Consumes(element)
    ensures Array(element, s).Got? ==> |Array(element, s).rest| < |s|
  {
    ArrayKeeps(element, _ => true, |s| + 1, s);
  }

  lemma OnGroupWithin(lib: Lib)
    ensures KeepsWithin(OnGroup(lib))
  {
    ProofDecoderConsumes(lib);
    forall f, k, s ensures GroupEntry(lib, f, k, s).Got? ==> |GroupEntry(lib, f, k, s).rest| <= |s| {
      StrBounds(2, s);
      ArrayConsumes(ProofDecoder(lib), s);
    }
  }

  const NO_GROUP := GroupFields(None, None)

  // Every proof of a group carries the group's keyset id.
  function Attach(id: Bytes, proofs: seq<Proof>): (r: seq<Proof>)
    ensures |r| == |proofs|
  {
    seq(|proofs|, i requires 0 <= i < |proofs| => proofs[i].(keysetId := id))
  }

  function DecodeGroup(lib: Lib, s: Bytes): Step<Group>
  {
    OnGroupWithin(lib);
    match ForeachKey(OnGroup(lib), NO_GROUP, s)
    case Bad => Bad
    case Got(f, rest) =>
      if f.keysetId.Some? && f.proofs.Some?
      then Got(Group(f.keysetId.value, Attach(f.keysetId.value, f.proofs.value)), rest)
      else Bad
  }

  // ---- Tokens ----

  datatype TokenFields = TokenFields(
    mint: Option<Bytes>, unit: Option<Bytes>, memo: Option<Bytes>, groups: Option<seq<Group>>)

  function GroupDecoder(lib: Lib): Bytes -> Step<Group> { s => DecodeGroup(lib, s) }

  lemma GroupDecoderConsumes(lib: Lib)
    ensures Consumes(GroupDecoder(lib))
  {
    OnGroupWithin(lib);
    forall s ensures DecodeGroup(lib, s).Got? ==> |DecodeGroup(lib, s).rest| < |s| {
      ForeachKeyConsumes(OnGroup(lib), NO_GROUP, s);
    }
  }

  function TokenEntry(lib: Lib, f: TokenFields, key: Bytes, s: Bytes): Step<TokenFields>
  {
    GroupDecoderConsumes(lib);
    if key == M then match Text(s) { case Bad => Bad case Got(b, r) => Got(f.(mint := Some(b)), r) }
    else if key == U then match Text(s) { case Bad => Bad case Got(b, r) => Got(f.(unit := Some(b)), r) }
    else if key == D then match Text(s) { case Bad => Bad case Got(b, r) => Got(f.(memo := Some(b)), r) }
    else if key == T then
      match Array(GroupDecoder(lib), s) { case Bad => Bad case Got(gs, r) => Got(f.(groups := Some(gs)), r) }
    else Skip(lib, f, s)
  }

  function OnToken(lib: Lib): Handler<TokenFields> { (f, k, s) => TokenEntry(lib, f, k, s) }

  lemma OnTokenWithin(lib: Lib)
    ensures KeepsWithin(OnToken(lib))
  {
    GroupDecoderConsumes(lib);
    forall f, k, s ensures TokenEntry(lib, f, k, s).Got? ==> |TokenEntry(lib, f, k, s).rest| <= |s| {
      StrBounds(3, s);
      ArrayConsumes(GroupDecoder(lib), s);
    }
  }

  const NO_TOKEN := TokenFields(None, None, None, None)

  // The decoder does not ask that the whole input be used.
  function DecodeBody(lib: Lib, s: Bytes): Option<TokenV4>
  {
    OnTokenWithin(lib);
    match ForeachKey(OnToken(lib), NO_TOKEN, s)
    case Bad => None
    case Got(f, _) =>
      if f.mint.Some? && f.unit.Some? && f.groups.Some?
      then Some(TokenV4(f.mint.value, f.unit.value, f.memo, f.groups.value))
      else None
  }

  const CASHU_B: Bytes := [99, 97, 115, 104, 117, 66]
  const CRAW_B: Bytes := [99, 114, 97, 119, 66]

  function Unprefixed(data: Bytes): Bytes
  {
    if CASHU_B <= data then data[6..] else if CRAW_B <= data then data[5..] else data
  }

  /** `decode_token`: strip a prefix, try base64url, fall back to the raw body. */
  function DecodeToken(lib: Lib, data: Bytes): Option<TokenV4>
  {
    var payload := Unprefixed(data);
    match Base64Url.Decode(payload)
    case Some(body) =>
      var t := DecodeBody(lib, body);
      if t.Some? then t else DecodeBody(lib, payload)
    case None => DecodeBody(lib, payload)
  }

  // ---- Encoding ----

  // What the types of the source guarantee of a token: UTF-8 strings, 64-bit amounts and lengths,
  // scalars in canonical form.
  predicate DleqTyped(lib: Lib, d: Dleq)
  {
    && |d.e| == 32 && lib.scalar(d.e) == Some(d.e)
    && |d.s| == 32 && lib.scalar(d.s) == Some(d.s)
    && |d.r| == 32 && lib.scalar(d.r) == Some(d.r)
  }

  predicate ProofTyped(lib: Lib, p: Proof)
  {
    && p.amount < U64_LIMIT
    && Utf8(p.secret) && |p.secret| < U64_LIMIT
    && |p.c| < U64_LIMIT
    && (p.dleq.Some? ==> DleqTyped(lib, p.dleq.value))
  }

  predicate GroupTyped(lib: Lib, g: Group)
  {
    && |g.keysetId| < 2 * U64_LIMIT
    && |g.proofs| < U64_LIMIT
    && forall i :: 0 <= i < |g.proofs| ==> ProofTyped(lib, g.proofs[i])
  }

  predicate TokenTyped(lib: Lib, t: TokenV4)
  {
    && Utf8(t.mint) && |t.mint| < U64_LIMIT
    && Utf8(t.unit) && |t.unit| < U64_LIMIT
    && (t.memo.Some? ==> Utf8(t.memo.value) && |t.memo.value| < U64_LIMIT)
    && |t.groups| < U64_LIMIT
    && forall i :: 0 <= i < |t.groups| ==> GroupTyped(lib, t.groups[i])
  }

  function PutProof(lib: Lib, p: Proof, tail: Bytes): Bytes
    requires ProofTyped(lib, p)
  {
    PutCount(5, if p.dleq.Some? then 4 else 3,
      PutStr(3, A, PutU64(p.amount,
      PutStr(3, S, PutStr(3, p.secret,
      PutStr(3, C, PutStr(2, p.c, PutOptionalDleq(lib, p.dleq, tail))))))))
  }

  function PutOptionalDleq(lib: Lib, d: Option<Dleq>, tail: Bytes): Bytes
    requires d.Some? ==> DleqTyped(lib, d.value)
  {
    if d.Some? then PutStr(3, D, PutDleq(d.value, tail)) else tail
  }

  function PutProofs(lib: Lib, ps: seq<Proof>, tail: Bytes): Bytes
    requires forall i :: 0 <= i < |ps| ==> ProofTyped(lib, ps[i])
  {
    if ps == [] then tail else PutProof(lib, ps[0], PutProofs(lib, ps[1..], tail))
  }

  // A group can be written when its keyset id is hex; the encoder fails otherwise.
  predicate Writable(lib: Lib, g: Group)
  {
    GroupTyped(lib, g) && HexDecode(g.keysetId).Some?
  }

  lemma {:induction false} HexHalves(h: Bytes)
    ensures HexDecode(h).Some? ==> 2 * |HexDecode(h).value| == |h|
  {
    if |h| < 2 {
    } else {
      HexHalves(h[2..]);
    }
  }

  function PutGroup(lib: Lib, g: Group, tail: Bytes): Bytes
    requires Writable(lib, g)
  {
    HexHalves(g.keysetId);
    PutCount(5, 2,
      PutStr(3, I, PutStr(2, HexDecode(g.keysetId).value,
      PutStr(3, P, PutCount(4, |g.proofs|, PutProofs(lib, g.proofs, tail))))))
  }

  function PutGroups(lib: Lib, gs: seq<Group>, tail: Bytes): Bytes
    requires forall i :: 0 <= i < |gs| ==> Writable(lib, gs[i])
  {
    if gs == [] then tail else PutGroup(lib, gs[0], PutGroups(lib, gs[1..], tail))
  }

  function PutToken(lib: Lib, t: TokenV4): Bytes
    requires TokenTyped(lib, t) && forall i :: 0 <= i < |t.groups| ==> Writable(lib, t.groups[i])
  {
    PutCount(5, if t.memo.Some? then 4 else 3,
      PutStr(3, M, PutStr(3, t.mint,
      PutStr(3, U, PutStr(3, t.unit,
      PutOptionalMemo(t.memo,
      PutStr(3, T, PutCount(4, |t.groups|, PutGroups(lib, t.groups, [])))))))))
  }

  function PutOptionalMemo(memo: Option<Bytes>, tail: Bytes): Bytes
    requires memo.Some? ==> |memo.value| < U64_LIMIT
  {
    if memo.Some? then PutStr(3, D, PutStr(3, memo.value, tail)) else tail
  }

  function EncodeToken(lib: Lib, t: TokenV4): Option<Bytes>
    requires TokenTyped(lib, t)
  {
    if forall i :: 0 <= i < |t.groups| ==> HexDecode(t.groups[i].keysetId).Some?
    then Some(PutToken(lib, t)) else None
  }

  function EncodeTokenWire(lib: Lib, t: TokenV4): Option<Bytes>
    requires TokenTyped(lib, t)
  {
    match EncodeToken(lib, t)
    case None => None
    case Some(body) => Some(CASHU_B + Base64Url.Encode(body))
  }

  // ---- Reading back what was written ----

  lemma KeysAreUtf8()
    ensures forall k :: k in [A, C, D, E, I, M, P, R, S, T, U] ==> Utf8(k) && |k| == 1
  {
    forall k | k in [A, C, D, E, I, M, P, R, S, T, U] ensures Utf8(k) {
      assert k[1..] == [];
    }
  }

  lemma ScalarRead(lib: Lib, b: Bytes, tail: Bytes)
    requires |b| == 32 && lib.scalar(b) == Some(b)
    ensures Scalar(lib, PutStr(2, b, tail)) == Got(b, tail)
  {
    StrRoundTrip(2, b, tail);
  }

  lemma DleqField(lib: Lib, n: nat, f: DleqFields, key: Bytes, b: Bytes, f': DleqFields, tail: Bytes)
    requires |b| == 32 && lib.scalar(b) == Some(b)
    requires || (key == E && f' == f.(e := Some(b))) || (key == S && f' == f.(s := Some(b)))
             || (key == R && f' == f.(r := Some(b)))
    ensures KeepsWithin(OnDleq(lib))
    ensures Entries(OnDleq(lib), Some(n + 1), f, PutStr(3, key, PutStr(2, b, tail))) ==
            Entries(OnDleq(lib), Some(n), f', tail)
  {
    hide PutStr, Scalar, Entries, KeepsWithin, Utf8;
    OnDleqWithin(lib);
    KeysAreUtf8();
    ScalarRead(lib, b, tail);
    EntryRead(OnDleq(lib), n, f, key, PutStr(2, b, tail), f', tail);
  }

  lemma DleqRead(lib: Lib, d: Dleq, tail: Bytes)
    requires DleqTyped(lib, d)
    ensures DecodeDleq(lib, PutDleq(d, tail)) == Got(d, tail)
  {
    hide PutStr, PutCount, ForeachKey, Entries, KeepsWithin, OnDleq;
    OnDleqWithin(lib);
    var f0, f1 := DleqFields(None, None, None), DleqFields(Some(d.e), None, None);
    var f2, f3 := DleqFields(Some(d.e), Some(d.s), None), DleqFields(Some(d.e), Some(d.s), Some(d.r));
    var t3 := PutStr(3, R, PutStr(2, d.r, tail));
    var t2 := PutStr(3, S, PutStr(2, d.s, t3));
    MapRead(OnDleq(lib), 3, f0, PutStr(3, E, PutStr(2, d.e, t2)));
    DleqField(lib, 2, f0, E, d.e, f1, t2);
    DleqField(lib, 1, f1, S, d.s, f2, t3);
    DleqField(lib, 0, f2, R, d.r, f3, tail);
    EntriesDone(OnDleq(lib), f3, tail);
  }

  // One field of a proof, given that its entry function reads it.
  lemma ProofField(lib: Lib, n: nat, f: ProofFields, key: Bytes, body: Bytes, f': ProofFields, tail: Bytes)
    requires key in [A, S, C, D] && ProofEntry(lib, f, key, body) == Got(f', tail)
    ensures KeepsWithin(OnProof(lib))
    ensures Entries(OnProof(lib), Some(n + 1), f, PutStr(3, key, body)) == Entries(OnProof(lib), Some(n), f', tail)
  {
    hide PutStr, ProofEntry, Entries, KeepsWithin, Utf8;
    OnProofWithin(lib);
    KeysAreUtf8();
    EntryRead(OnProof(lib), n, f, key, body, f', tail);
  }

  lemma ProofEntriesRead(lib: Lib, p: Proof, f1: ProofFields, f2: ProofFields, f3: ProofFields, t2: Bytes, t3: Bytes,
                         t4: Bytes)
    requires ProofTyped(lib, p)
    requires f1 == NO_PROOF.(amount := Some(p.amount)) && f2 == f1.(secret := Some(p.secret)) &&
             f3 == f2.(c := Some(p.c))
    ensures ProofEntry(lib, NO_PROOF, A, PutU64(p.amount, t2)) == Got(f1, t2)
    ensures ProofEntry(lib, f1, S, PutStr(3, p.secret, t3)) == Got(f2, t3)
    ensures ProofEntry(lib, f2, C, PutStr(2, p.c, t4)) == Got(f3, t4)
  {
    hide PutStr, PutU64, Str, U64, Utf8, DecodeDleq;
    U64RoundTrip(p.amount, t2);
    StrRoundTrip(3, p.secret, t3);
    StrRoundTrip(2, p.c, t4);
  }

  lemma ProofDleqRead(lib: Lib, f: ProofFields, d: Dleq, tail: Bytes)
    requires DleqTyped(lib, d)
    ensures ProofEntry(lib, f, D, PutDleq(d, tail)) == Got(f.(dleq := Some(d)), tail)
  {
    hide PutDleq, DecodeDleq;
    DleqRead(lib, d, tail);
  }

  lemma ProofRead(lib: Lib, p: Proof, tail: Bytes)
    requires ProofTyped(lib, p)
    ensures DecodeProof(lib, PutProof(lib, p, tail)) == Got(p.(keysetId := []), tail)
  {
    hide PutStr, PutU64, PutCount, PutDleq, ForeachKey, Entries, KeepsWithin, OnProof, ProofEntry, Utf8;
    OnProofWithin(lib);
    var on, n := OnProof(lib), if p.dleq.Some? then 1 else 0;
    var f1 := NO_PROOF.(amount := Some(p.amount));
    var f2 := f1.(secret := Some(p.secret));
    var f3 := f2.(c := Some(p.c));
    var f4 := f3.(dleq := p.dleq);
    var t4 := PutOptionalDleq(lib, p.dleq, tail);
    var t3 := PutStr(3, C, PutStr(2, p.c, t4));
    var t2 := PutStr(3, S, PutStr(3, p.secret, t3));
    ProofEntriesRead(lib, p, f1, f2, f3, t2, t3, t4);
    MapRead(on, n + 3, NO_PROOF, PutStr(3, A, PutU64(p.amount, t2)));
    ProofField(lib, n + 2, NO_PROOF, A, PutU64(p.amount, t2), f1, t2);
    ProofField(lib, n + 1, f1, S, PutStr(3, p.secret, t3), f2, t3);
    ProofField(lib, n, f2, C, PutStr(2, p.c, t4), f3, t4);
    if p.dleq.Some? {
      ProofDleqRead(lib, f3, p.dleq.value, tail);
      ProofField(lib, 0, f3, D, PutDleq(p.dleq.value, tail), f4, tail);
    }
    EntriesDone(on, f4, tail);
  }

  lemma {:induction false} ProofsRead(lib: Lib, ps: seq<Proof>, tail: Bytes)
    requires forall i :: 0 <= i < |ps| ==> ProofTyped(lib, ps[i])
    ensures Consumes(ProofDecoder(lib))
    ensures Elements(ProofDecoder(lib), Some(|ps|), PutProofs(lib, ps, tail)) == Got(Attach([], ps), tail)
  {
    hide PutProof, DecodeProof, ProofTyped, Consumes;
    ProofDecoderConsumes(lib);
    if ps == [] {
    } else {
      var rest := PutProofs(lib, ps[1..], tail);
      ProofRead(lib, ps[0], rest);
      ProofsRead(lib, ps[1..], tail);
      ElementRead(ProofDecoder(lib), |ps| - 1, PutProof(lib, ps[0], rest), ps[0].(keysetId := []), rest,
        Attach([], ps[1..]), tail);
      assert Attach([], ps) == [ps[0].(keysetId := [])] + Attach([], ps[1..]);
    }
  }

  // The keyset id in the form the decoder gives it, repeated on every proof.
  function NormalGroup(g: Group): Group
    requires HexDecode(g.keysetId).Some?
  {
    var id := HexEncode(HexDecode(g.keysetId).value);
    Group(id, Attach(id, g.proofs))
  }

  lemma GroupField(lib: Lib, n: nat, f: GroupFields, key: Bytes, body: Bytes, f': GroupFields, tail: Bytes)
    requires key in [I, P] && GroupEntry(lib, f, key, body) == Got(f', tail)
    ensures KeepsWithin(OnGroup(lib))
    ensures Entries(OnGroup(lib), Some(n + 1), f, PutStr(3, key, body)) == Entries(OnGroup(lib), Some(n), f', tail)
  {
    hide PutStr, GroupEntry, Entries, KeepsWithin, Utf8;
    OnGroupWithin(lib);
    KeysAreUtf8();
    EntryRead(OnGroup(lib), n, f, key, body, f', tail);
  }

  lemma GroupEntriesRead(lib: Lib, f: GroupFields, raw: Bytes, t2: Bytes, ps: seq<Proof>, tail: Bytes)
    requires |raw| < U64_LIMIT && |ps| < U64_LIMIT && forall i :: 0 <= i < |ps| ==> ProofTyped(lib, ps[i])
    ensures GroupEntry(lib, f, I, PutStr(2, raw, t2)) == Got(f.(keysetId := Some(HexEncode(raw))), t2)
    ensures GroupEntry(lib, f, P, PutCount(4, |ps|, PutProofs(lib, ps, tail))) ==
            Got(f.(proofs := Some(Attach([], ps))), tail)
  {
    hide PutStr, PutCount, PutProofs, Str, Array, Elements, ProofDecoder, HexEncode, ProofTyped;
    StrRoundTrip(2, raw, t2);
    ProofsRead(lib, ps, tail);
    ArrayRead(ProofDecoder(lib), |ps|, PutProofs(lib, ps, tail));
  }

  lemma AttachTwice(id: Bytes, ps: seq<Proof>)
    ensures Attach(id, Attach([], ps)) == Attach(id, ps)
  {
  }

  lemma GroupRead(lib: Lib, g: Group, tail: Bytes)
    requires Writable(lib, g)
    ensures DecodeGroup(lib, PutGroup(lib, g, tail)) == Got(NormalGroup(g), tail)
  {
    hide PutStr, PutCount, PutProofs, ForeachKey, Entries, KeepsWithin, OnGroup, GroupEntry, HexEncode, HexDecode,
         ProofTyped, Attach;
    OnGroupWithin(lib);
    HexHalves(g.keysetId);
    var on, raw := OnGroup(lib), HexDecode(g.keysetId).value;
    var body := PutCount(4, |g.proofs|, PutProofs(lib, g.proofs, tail));
    var t2 := PutStr(3, P, body);
    var f1 := NO_GROUP.(keysetId := Some(HexEncode(raw)));
    var f2 := f1.(proofs := Some(Attach([], g.proofs)));
    GroupEntriesRead(lib, NO_GROUP, raw, t2, g.proofs, tail);
    GroupEntriesRead(lib, f1, raw, t2, g.proofs, tail);
    MapRead(on, 2, NO_GROUP, PutStr(3, I, PutStr(2, raw, t2)));
    GroupField(lib, 1, NO_GROUP, I, PutStr(2, raw, t2), f1, t2);
    GroupField(lib, 0, f1, P, body, f2, tail);
    EntriesDone(on, f2, tail);
    AttachTwice(HexEncode(raw), g.proofs);
  }

  function NormalGroups(gs: seq<Group>): (r: seq<Group>)
    requires forall i :: 0 <= i < |gs| ==> HexDecode(gs[i].keysetId).Some?
    ensures |r| == |gs|
  {
    seq(|gs|, i requires 0 <= i < |gs| => NormalGroup(gs[i]))
  }

  lemma {:induction false} GroupsRead(lib: Lib, gs: seq<Group>, tail: Bytes)
    requires forall i :: 0 <= i < |gs| ==> Writable(lib, gs[i])
    ensures Consumes(GroupDecoder(lib))
    ensures Elements(GroupDecoder(lib), Some(|gs|), PutGroups(lib, gs, tail)) == Got(NormalGroups(gs), tail)
  {
    hide PutGroup, DecodeGroup, NormalGroup, Consumes, GroupTyped, HexDecode;
    GroupDecoderConsumes(lib);
    if gs == [] {
    } else {
      var rest := PutGroups(lib, gs[1..], tail);
      GroupRead(lib, gs[0], rest);
      GroupsRead(lib, gs[1..], tail);
      ElementRead(GroupDecoder(lib), |gs| - 1, PutGroup(lib, gs[0], rest), NormalGroup(gs[0]), rest,
        NormalGroups(gs[1..]), tail);
      assert NormalGroups(gs) == [NormalGroup(gs[0])] + NormalGroups(gs[1..]);
    }
  }

  // A token as any decoder would hand it out.
  function Normal(t: TokenV4): TokenV4
    requires forall i :: 0 <= i < |t.groups| ==> HexDecode(t.groups[i].keysetId).Some?
  {
    t.(groups := NormalGroups(t.groups))
  }

  lemma TokenField(lib: Lib, n: nat, f: TokenFields, key: Bytes, body: Bytes, f': TokenFields, tail: Bytes)
    requires key in [M, U, D, T] && TokenEntry(lib, f, key, body) == Got(f', tail)
    ensures KeepsWithin(OnToken(lib))
    ensures Entries(OnToken(lib), Some(n + 1), f, PutStr(3, key, body)) == Entries(OnToken(lib), Some(n), f', tail)
  {
    hide PutStr, TokenEntry, Entries, KeepsWithin, Utf8;
    OnTokenWithin(lib);
    KeysAreUtf8();
    EntryRead(OnToken(lib), n, f, key, body, f', tail);
  }

  lemma TokenTextRead(lib: Lib, f: TokenFields, b: Bytes, tail: Bytes)
    requires Utf8(b) && |b| < U64_LIMIT
    ensures TokenEntry(lib, f, M, PutStr(3, b, tail)) == Got(f.(mint := Some(b)), tail)
    ensures TokenEntry(lib, f, U, PutStr(3, b, tail)) == Got(f.(unit := Some(b)), tail)
    ensures TokenEntry(lib, f, D, PutStr(3, b, tail)) == Got(f.(memo := Some(b)), tail)
  {
    hide PutStr, Str, Utf8, Array, GroupDecoder;
    StrRoundTrip(3, b, tail);
  }

  lemma TokenGroupsRead(lib: Lib, f: TokenFields, gs: seq<Group>, tail: Bytes)
    requires |gs| < U64_LIMIT && forall i :: 0 <= i < |gs| ==> Writable(lib, gs[i])
    ensures TokenEntry(lib, f, T, PutCount(4, |gs|, PutGroups(lib, gs, tail))) ==
            Got(f.(groups := Some(NormalGroups(gs))), tail)
  {
    hide PutCount, PutGroups, Text, Array, Elements, GroupDecoder, NormalGroups, Writable;
    GroupsRead(lib, gs, tail);
    ArrayRead(GroupDecoder(lib), |gs|, PutGroups(lib, gs, tail));
  }

  lemma BodyRead(lib: Lib, t: TokenV4)
    requires TokenTyped(lib, t) && EncodeToken(lib, t).Some?
    ensures DecodeBody(lib, EncodeToken(lib, t).value) == Some(Normal(t))
  {
    hide PutStr, PutCount, PutGroups, ForeachKey, Entries, KeepsWithin, OnToken, TokenEntry, Utf8, HexDecode,
         GroupTyped, NormalGroups;
    OnTokenWithin(lib);
    var on, n := OnToken(lib), if t.memo.Some? then 1 else 0;
    var body := PutCount(4, |t.groups|, PutGroups(lib, t.groups, []));
    var t4 := PutStr(3, T, body);
    var t3 := PutOptionalMemo(t.memo, t4);
    var t2 := PutStr(3, U, PutStr(3, t.unit, t3));
    var f1 := NO_TOKEN.(mint := Some(t.mint));
    var f2 := f1.(unit := Some(t.unit));
    var f3 := f2.(memo := t.memo);
    var f4 := f3.(groups := Some(NormalGroups(t.groups)));
    MapRead(on, n + 3, NO_TOKEN, PutStr(3, M, PutStr(3, t.mint, t2)));
    TokenTextRead(lib, NO_TOKEN, t.mint, t2);
    TokenField(lib, n + 2, NO_TOKEN, M, PutStr(3, t.mint, t2), f1, t2);
    TokenTextRead(lib, f1, t.unit, t3);
    TokenField(lib, n + 1, f1, U, PutStr(3, t.unit, t3), f2, t3);
    if t.memo.Some? {
      TokenTextRead(lib, f2, t.memo.value, t4);
      TokenField(lib, 1, f2, D, PutStr(3, t.memo.value, t4), f3, t4);
    }
    TokenGroupsRead(lib, f3, t.groups, []);
    TokenField(lib, 0, f3, T, body, f4, []);
    EntriesDone(on, f4, []);
  }

  // A raw body starts with a map head, which is no base64 character and begins no prefix.
  lemma BodyHead(lib: Lib, t: TokenV4)
    requires TokenTyped(lib, t) && EncodeToken(lib, t).Some?
    ensures var body := EncodeToken(lib, t).value;
            |body| >= 2 && body[0] >= 0xA0 && body[1] == 0x61
  {
    hide PutGroups, PutOptionalMemo, HexDecode, GroupTyped, Utf8;
  }

  lemma HeadIsNotText(body: Bytes)
    requires |body| >= 2 && body[0] >= 0xA0 && body[1] != Base64Url.PAD
    ensures Unprefixed(body) == body && Base64Url.Decode(body) == None
  {
    hide Base64Url.Groups, Base64Url.Strip;
    StripKeepsHead(body);
    assert !Base64Url.InAlphabet(Base64Url.Strip(body)[0]);
    Base64Url.DecodeFailsIff(body);
  }

  // Cutting padding off stops at the last character that is not padding.
  lemma {:induction false} StripKeepsHead(s: Bytes)
    requires |s| >= 2 && s[0] != Base64Url.PAD && s[1] != Base64Url.PAD
    ensures |Base64Url.Strip(s)| >= 2 && Base64Url.Strip(s)[0] == s[0]
  {
    if s[|s| - 1] == Base64Url.PAD {
      StripKeepsHead(s[..|s| - 1]);
    }
  }

  /** Both wire forms of a token that can be written decode to its normal form; the raw form is never
      mistaken for base64. */
  lemma WireRoundTrip(lib: Lib, t: TokenV4)
    requires TokenTyped(lib, t) && EncodeToken(lib, t).Some?
    ensures EncodeTokenWire(lib, t).Some?
    ensures DecodeToken(lib, EncodeTokenWire(lib, t).value) == Some(Normal(t))
    ensures DecodeToken(lib, EncodeToken(lib, t).value) == Some(Normal(t))
  {
    hide EncodeToken, TokenTyped, Normal, DecodeBody, Base64Url.Encode, Base64Url.Decode;
    var body := EncodeToken(lib, t).value;
    BodyRead(lib, t);
    BodyHead(lib, t);
    HeadIsNotText(body);
    var text := Base64Url.Encode(body);
    assert (CASHU_B + text)[6..] == text;
    Base64Url.RoundTrip(body);
  }

  // ---- Everything the decoder accepts ----

  predicate ScalarOk(lib: Lib, b: Option<Bytes>)
  {
    b.Some? ==> |b.value| == 32 && lib.scalar(b.value) == b
  }

  predicate DleqFieldsOk(lib: Lib, f: DleqFields)
  {
    ScalarOk(lib, f.e) && ScalarOk(lib, f.s) && ScalarOk(lib, f.r)
  }

  lemma DleqDecodesTyped(lib: Lib, s: Bytes)
    requires |s| < U64_LIMIT
    ensures DecodeDleq(lib, s).Got? ==> DleqTyped(lib, DecodeDleq(lib, s).value)
  {
    hide ForeachKey, KeepsWithin, Str;
    OnDleqWithin(lib);
    var on, P := OnDleq(lib), (f: DleqFields) => DleqFieldsOk(lib, f);
    forall f, k, r | |r| < U64_LIMIT && P(f) && on(f, k, r).Got? ensures P(on(f, k, r).value) {
      assert on(f, k, r) == DleqEntry(lib, f, k, r);
    }
    ForeachKeyKeeps(on, P, U64_LIMIT, DleqFields(None, None, None), s);
  }

  predicate ProofFieldsOk(lib: Lib, f: ProofFields)
  {
      && (f.amount.Some? ==> f.amount.value < U64_LIMIT)
      && (f.secret.Some? ==> Utf8(f.secret.value) && |f.secret.value| < U64_LIMIT)
      && (f.c.Some? ==> |f.c.value| < U64_LIMIT)
      && (f.dleq.Some? ==> DleqTyped(lib, f.dleq.value))
  }

  lemma ProofEntryKeeps(lib: Lib, f: ProofFields, k: Bytes, r: Bytes)
    requires |r| < U64_LIMIT && ProofFieldsOk(lib, f) && ProofEntry(lib, f, k, r).Got?
    ensures ProofFieldsOk(lib, ProofEntry(lib, f, k, r).value)
  {
    hide Str, U64, Utf8, DecodeDleq, DleqTyped;
    U64Bounds(r);
    StrBounds(2, r);
    StrBounds(3, r);
    DleqDecodesTyped(lib, r);
  }

  lemma ProofDecodesTyped(lib: Lib, s: Bytes)
    requires |s| < U64_LIMIT
    ensures DecodeProof(lib, s).Got? ==> ProofTyped(lib, DecodeProof(lib, s).value)
  {
    hide ForeachKey, KeepsWithin, ProofEntry, Utf8, DleqTyped;
    OnProofWithin(lib);
    var on, P := OnProof(lib), (f: ProofFields) => ProofFieldsOk(lib, f);
    forall f, k, r | |r| < U64_LIMIT && P(f) && on(f, k, r).Got? ensures P(on(f, k, r).value) {
      ProofEntryKeeps(lib, f, k, r);
    }
    ForeachKeyKeeps(on, P, U64_LIMIT, NO_PROOF, s);
  }

  predicate GroupFieldsOk(lib: Lib, f: GroupFields)
  {
      && (f.keysetId.Some? ==> CanonicalId(f.keysetId.value))
      && (f.proofs.Some? ==>
            && |f.proofs.value| < U64_LIMIT
            && forall i :: 0 <= i < |f.proofs.value| ==> ProofTyped(lib, f.proofs.value[i]))
  }

  predicate CanonicalId(id: Bytes)
  {
    |id| < 2 * U64_LIMIT && HexDecode(id).Some? && HexEncode(HexDecode(id).value) == id
  }

  lemma HexIsCanonical(raw: Bytes)
    requires |raw| < U64_LIMIT
    ensures CanonicalId(HexEncode(raw))
  {
    HexRoundTrip(raw);
    HexHalves(HexEncode(raw));
  }

  lemma ProofArrayTyped(lib: Lib, r: Bytes)
    requires |r| < U64_LIMIT
    ensures Consumes(ProofDecoder(lib))
    ensures var a := Array(ProofDecoder(lib), r);
            a.Got? ==> |a.value| < U64_LIMIT && forall i :: 0 <= i < |a.value| ==> ProofTyped(lib, a.value[i])
  {
    hide Array, Consumes, DecodeProof, ProofTyped;
    ProofDecoderConsumes(lib);
    var P := (p: Proof) => ProofTyped(lib, p);
    forall x | |x| < U64_LIMIT && ProofDecoder(lib)(x).Got? ensures P(ProofDecoder(lib)(x).value) {
      ProofDecodesTyped(lib, x);
    }
    ArrayKeeps(ProofDecoder(lib), P, U64_LIMIT, r);
  }

  lemma GroupEntryKeeps(lib: Lib, f: GroupFields, k: Bytes, r: Bytes)
    requires |r| < U64_LIMIT && GroupFieldsOk(lib, f) && GroupEntry(lib, f, k, r).Got?
    ensures GroupFieldsOk(lib, GroupEntry(lib, f, k, r).value)
  {
    hide Str, Array, ProofDecoder, HexEncode, CanonicalId, ProofTyped;
    StrBounds(2, r);
    ProofArrayTyped(lib, r);
    if k == I && ByteStr(r).Got? {
      HexIsCanonical(ByteStr(r).value);
    }
  }

  // A group in normal form: what `NormalGroup` leaves alone.
  predicate GroupNormal(lib: Lib, g: Group)
  {
    GroupTyped(lib, g) && HexDecode(g.keysetId).Some? && NormalGroup(g) == g
  }

  lemma AttachedIsNormal(lib: Lib, id: Bytes, ps: seq<Proof>)
    requires CanonicalId(id) && |ps| < U64_LIMIT && forall i :: 0 <= i < |ps| ==> ProofTyped(lib, ps[i])
    ensures GroupNormal(lib, Group(id, Attach(id, ps)))
  {
    hide HexDecode, HexEncode, Utf8, DleqTyped;
    assert Attach(id, Attach(id, ps)) == Attach(id, ps);
  }

  lemma GroupDecodesNormal(lib: Lib, s: Bytes)
    requires |s| < U64_LIMIT
    ensures DecodeGroup(lib, s).Got? ==> GroupNormal(lib, DecodeGroup(lib, s).value)
  {
    hide ForeachKey, KeepsWithin, GroupEntry, ProofTyped, GroupNormal, CanonicalId;
    OnGroupWithin(lib);
    var on, P := OnGroup(lib), (f: GroupFields) => GroupFieldsOk(lib, f);
    forall f, k, r | |r| < U64_LIMIT && P(f) && on(f, k, r).Got? ensures P(on(f, k, r).value) {
      GroupEntryKeeps(lib, f, k, r);
    }
    ForeachKeyKeeps(on, P, U64_LIMIT, NO_GROUP, s);
    var fields := ForeachKey(on, NO_GROUP, s);
    if fields.Got? && fields.value.keysetId.Some? && fields.value.proofs.Some? {
      AttachedIsNormal(lib, fields.value.keysetId.value, fields.value.proofs.value);
    }
  }

  predicate TokenFieldsOk(lib: Lib, f: TokenFields)
  {
      && (f.mint.Some? ==> Utf8(f.mint.value) && |f.mint.value| < U64_LIMIT)
      && (f.unit.Some? ==> Utf8(f.unit.value) && |f.unit.value| < U64_LIMIT)
      && (f.memo.Some? ==> Utf8(f.memo.value) && |f.memo.value| < U64_LIMIT)
      && (f.groups.Some? ==>
            && |f.groups.value| < U64_LIMIT
            && forall i :: 0 <= i < |f.groups.value| ==> GroupNormal(lib, f.groups.value[i]))
  }

  lemma GroupArrayNormal(lib: Lib, r: Bytes)
    requires |r| < U64_LIMIT
    ensures Consumes(GroupDecoder(lib))
    ensures var a := Array(GroupDecoder(lib), r);
            a.Got? ==> |a.value| < U64_LIMIT && forall i :: 0 <= i < |a.value| ==> GroupNormal(lib, a.value[i])
  {
    hide Array, Consumes, DecodeGroup, GroupNormal;
    GroupDecoderConsumes(lib);
    var P := (g: Group) => GroupNormal(lib, g);
    forall x | |x| < U64_LIMIT && GroupDecoder(lib)(x).Got? ensures P(GroupDecoder(lib)(x).value) {
      GroupDecodesNormal(lib, x);
    }
    ArrayKeeps(GroupDecoder(lib), P, U64_LIMIT, r);
  }

  lemma TokenEntryKeeps(lib: Lib, f: TokenFields, k: Bytes, r: Bytes)
    requires |r| < U64_LIMIT && TokenFieldsOk(lib, f) && TokenEntry(lib, f, k, r).Got?
    ensures TokenFieldsOk(lib, TokenEntry(lib, f, k, r).value)
  {
    hide Str, Array, GroupDecoder, Utf8, GroupNormal;
    StrBounds(3, r);
    GroupArrayNormal(lib, r);
  }

  /** Every token the decoder accepts is typed, can be written, and is in normal form. */
  lemma BodyDecodesNormal(lib: Lib, s: Bytes)
    requires |s| < U64_LIMIT && DecodeBody(lib, s).Some?
    ensures var t := DecodeBody(lib, s).value;
            TokenTyped(lib, t) && EncodeToken(lib, t).Some? && Normal(t) == t
  {
    hide ForeachKey, KeepsWithin, TokenEntry, Utf8, PutToken, HexDecode, NormalGroup;
    OnTokenWithin(lib);
    var on, P := OnToken(lib), (f: TokenFields) => TokenFieldsOk(lib, f);
    forall f, k, r | |r| < U64_LIMIT && P(f) && on(f, k, r).Got? ensures P(on(f, k, r).value) {
      TokenEntryKeeps(lib, f, k, r);
    }
    ForeachKeyKeeps(on, P, U64_LIMIT, NO_TOKEN, s);
    var t := DecodeBody(lib, s).value;
    assert forall i :: 0 <= i < |t.groups| ==> GroupNormal(lib, t.groups[i]);
    assert NormalGroups(t.groups) == t.groups;
  }

  lemma {:induction false} DecodedIsShorter(s: Bytes)
    ensures Base64Url.Groups(s).Some? ==> |Base64Url.Groups(s).value| <= |s|
  {
    if |s| < 4 {
    } else {
      DecodedIsShorter(s[4..]);
    }
  }

  /** Main theorem: whatever bytes a token was decoded from, it is a fixed point of both wire forms. */
  lemma AcceptedTokensAreFixedPoints(lib: Lib, data: Bytes)
    requires |data| < U64_LIMIT && DecodeToken(lib, data).Some?
    ensures var t := DecodeToken(lib, data).value;
            && TokenTyped(lib, t)
            && EncodeToken(lib, t).Some? && DecodeToken(lib, EncodeToken(lib, t).value) == Some(t)
            && EncodeTokenWire(lib, t).Some? && DecodeToken(lib, EncodeTokenWire(lib, t).value) == Some(t)
  {
    hide DecodeBody, EncodeToken, TokenTyped, EncodeTokenWire, Normal, Base64Url.Groups, Base64Url.Strip;
    var payload := Unprefixed(data);
    DecodedIsShorter(Base64Url.Strip(payload));
    if Base64Url.Decode(payload).Some? && DecodeBody(lib, Base64Url.Decode(payload).value).Some? {
      BodyDecodesNormal(lib, Base64Url.Decode(payload).value);
    } else {
      BodyDecodesNormal(lib, payload);
    }
    WireRoundTrip(lib, DecodeToken(lib, data).value);
  }

  // The keyset ids are in the decoder's form, and every proof repeats its group's.
  predicate IdsCanonical(t: TokenV4)
    requires forall i :: 0 <= i < |t.groups| ==> HexDecode(t.groups[i].keysetId).Some?
  {
    forall i :: 0 <= i < |t.groups| ==>
      && HexEncode(HexDecode(t.groups[i].keysetId).value) == t.groups[i].keysetId
      && forall j :: 0 <= j < |t.groups[i].proofs| ==> t.groups[i].proofs[j].keysetId == t.groups[i].keysetId
  }

  lemma AttachIff(id: Bytes, ps: seq<Proof>)
    ensures Attach(id, ps) == ps <==> forall j :: 0 <= j < |ps| ==> ps[j].keysetId == id
  {
    if Attach(id, ps) == ps {
      forall j | 0 <= j < |ps| ensures ps[j].keysetId == id {
        assert Attach(id, ps)[j] == ps[j];
      }
    }
  }

  lemma NormalIff(t: TokenV4)
    requires forall i :: 0 <= i < |t.groups| ==> HexDecode(t.groups[i].keysetId).Some?
    ensures Normal(t) == t <==> IdsCanonical(t)
  {
    hide HexDecode, HexEncode, Attach;
    forall i | 0 <= i < |t.groups|
      ensures NormalGroup(t.groups[i]) == t.groups[i] <==>
              && HexEncode(HexDecode(t.groups[i].keysetId).value) == t.groups[i].keysetId
              && forall j :: 0 <= j < |t.groups[i].proofs| ==> t.groups[i].proofs[j].keysetId == t.groups[i].keysetId
    {
      AttachIff(t.groups[i].keysetId, t.groups[i].proofs);
    }
    assert forall i :: 0 <= i < |t.groups| ==> NormalGroups(t.groups)[i] == NormalGroup(t.groups[i]);
  }

  /** A token that can be written comes back unchanged if and only if it is in normal form: lower-case
      hex keyset ids, repeated on every proof. */
  lemma ReadsBackIffNormal(lib: Lib, t: TokenV4)
    requires TokenTyped(lib, t) && EncodeToken(lib, t).Some?
    ensures DecodeToken(lib, EncodeToken(lib, t).value) == Some(t) <==> IdsCanonical(t)
  {
    hide TokenTyped, DecodeToken, HexDecode, HexEncode, PutToken, IdsCanonical;
    WireRoundTrip(lib, t);
    NormalIff(t);
  }
}
