/**
 The swap state machine of the device (micronuts-app/src/command_handler.rs, `handle_command`,
 `handle_get_blinded`, `handle_send_signatures`, `build_export_token`, and the state effect of
 `classify_and_assemble`).

 The class `Firmware` is the source's `FirmwareState`; its handlers are proved against functions on
 the datatype `Fw`, over which the properties of whole command sequences are stated.
 */
module SwapDevice {
  import opened Results
  import opened Cbor
  import Token

  const MAX_PAYLOAD_SIZE := 1024
  const POINT_LEN := 33
  const ENTRY_LEN := 33 + 32 + 32

  type TokenV4 = Token.TokenV4

  // What the handlers call: the token codec's libraries, point encoding, the curve operations, DLEQ
  // verification, and the pinned mint key.
  datatype Device<!P(!new)> = Device(
    lib: Token.Lib,
    parsePoint: Bytes -> Option<P>,
    pointBytes: P -> Bytes,
    blind: (Bytes, Bytes) -> Option<P>,
    unblind: (P, Bytes, P) -> Option<P>,
    verifyDleq: (P, P, Bytes, Bytes, P) -> bool,
    pinned: Option<P>)

  datatype Blinded<P> = Blinded(point: P, blinder: Bytes)
  datatype Phase = Idle | TokenImported | BlindedGenerated | ProofsReady
  datatype Status = StatusOk | StatusError | InvalidPayload | BufferOverflow | CryptoError

  datatype Fw<P> = Fw(
    imported: Option<TokenV4>,
    blinded: Option<seq<Blinded<P>>>,
    secrets: Option<seq<Bytes>>,
    amounts: Option<seq<nat>>,
    proofs: Option<seq<Token.Proof>>,
    phase: Phase)

  // ---- Importing ----

  function Import<P(!new)>(dev: Device<P>, fw: Fw<P>, payload: Bytes): (Fw<P>, Status)
  {
    match Token.DecodeToken(dev.lib, payload)
    case None => (fw, InvalidPayload)
    case Some(t) => (Scanned(fw, t), StatusOk)
  }

  // A scan that completes a token imports it.
  function Scanned<P>(fw: Fw<P>, t: TokenV4): Fw<P>
  {
    fw.(imported := Some(t), phase := TokenImported)
  }

  // ---- Blinding ----

  // The proofs of a token, group after group.
  function AllProofs(groups: seq<Token.Group>): seq<Token.Proof>
  {
    if groups == [] then [] else AllProofs(groups[..|groups| - 1]) + groups[|groups| - 1].proofs
  }

  // Blinding one proof with the random bytes drawn for it; the source skips the proof when this fails.
  function BlindOne<P(!new)>(dev: Device<P>, p: Token.Proof, draw: Bytes): Option<Blinded<P>>
  {
    match dev.lib.scalar(draw)
    case None => None
    case Some(r) =>
      match dev.blind(p.secret, r)
      case None => None
      case Some(b) => Some(Blinded(b, r))
  }

  // The positions, among the first n proofs, that were blinded.
  function Chosen<P(!new)>(dev: Device<P>, ps: seq<Token.Proof>, draw: nat -> Bytes, n: nat): (r: seq<nat>)
    requires n <= |ps|
    ensures forall i :: 0 <= i < |r| ==> r[i] < n && BlindOne(dev, ps[r[i]], draw(r[i])).Some?
    ensures forall i, j :: 0 <= i < j < |r| ==> r[i] < r[j]
    ensures forall k :: 0 <= k < n && BlindOne(dev, ps[k], draw(k)).Some? ==> k in r
  {
    if n == 0 then []
    else if BlindOne(dev, ps[n - 1], draw(n - 1)).Some? then Chosen(dev, ps, draw, n - 1) + [n - 1]
    else Chosen(dev, ps, draw, n - 1)
  }

  function BlindedAt<P(!new)>(dev: Device<P>, ps: seq<Token.Proof>, draw: nat -> Bytes,
                              at: seq<nat>): (r: seq<Blinded<P>>)
    requires forall i :: 0 <= i < |at| ==> at[i] < |ps| && BlindOne(dev, ps[at[i]], draw(at[i])).Some?
    ensures |r| == |at| && forall i :: 0 <= i < |at| ==> r[i] == BlindOne(dev, ps[at[i]], draw(at[i])).value
  {
    seq(|at|, i requires 0 <= i < |at| => BlindOne(dev, ps[at[i]], draw(at[i])).value)
  }

  function SecretsAt(ps: seq<Token.Proof>, at: seq<nat>): (r: seq<Bytes>)
    requires forall i :: 0 <= i < |at| ==> at[i] < |ps|
    ensures |r| == |at| && forall i :: 0 <= i < |at| ==> r[i] == ps[at[i]].secret
  {
    seq(|at|, i requires 0 <= i < |at| => ps[at[i]].secret)
  }

  function AmountsAt(ps: seq<Token.Proof>, at: seq<nat>): (r: seq<nat>)
    requires forall i :: 0 <= i < |at| ==> at[i] < |ps|
    ensures |r| == |at| && forall i :: 0 <= i < |at| ==> r[i] == ps[at[i]].amount
  {
    seq(|at|, i requires 0 <= i < |at| => ps[at[i]].amount)
  }

  function GetBlinded<P(!new)>(dev: Device<P>, fw: Fw<P>, draw: nat -> Bytes): (Fw<P>, Status)
  {
    match fw.imported
    case None => (fw, StatusError)
    case Some(t) =>
      var ps := AllProofs(t.groups);
      var at := Chosen(dev, ps, draw, |ps|);
      if at == [] then (fw, CryptoError)
      else if |at| * POINT_LEN > MAX_PAYLOAD_SIZE then (fw, BufferOverflow)
      else
        (fw.(blinded := Some(BlindedAt(dev, ps, draw, at)),
             secrets := Some(SecretsAt(ps, at)),
             amounts := Some(AmountsAt(ps, at)),
             phase := BlindedGenerated),
         StatusOk)
  }

  // The answer to an accepted command: the blinded points, one after the other.
  function Points<P(!new)>(dev: Device<P>, bs: seq<Blinded<P>>): Bytes
  {
    if bs == [] then [] else Points(dev, bs[..|bs| - 1]) + dev.pointBytes(bs[|bs| - 1].point)
  }

  // ---- Accepting signatures ----

  // One entry of the payload: a blind signature and its DLEQ proof, checked against the pinned key.
  function ProofFor<P(!new)>(dev: Device<P>, key: P, id: Bytes, b: Blinded<P>, secret: Bytes, amount: nat,
                             entry: Bytes): Option<Token.Proof>
    requires |entry| == ENTRY_LEN
  {
    match (dev.parsePoint(entry[..33]), dev.lib.scalar(entry[33..65]), dev.lib.scalar(entry[65..]))
    case (Some(c), Some(e), Some(s)) =>
      if !dev.verifyDleq(b.point, c, e, s, key) then None
      else (match dev.unblind(c, b.blinder, key)
            case None => None
            case Some(u) => Some(Token.Proof(amount, id, secret, dev.pointBytes(u), Some(Token.Dleq(e, s, b.blinder)))))
    case _ => None
  }

  const FALLBACK_ID: Bytes := [48, 48]  // "00"

  function KeysetOf(imported: Option<TokenV4>): Bytes
  {
    if imported.Some? && imported.value.groups != [] then imported.value.groups[0].keysetId else FALLBACK_ID
  }

  // The three lists of a pending swap go together: all absent, or all of one non-zero length.
  predicate Matched<P>(fw: Fw<P>)
  {
    || (fw.blinded.None? && fw.secrets.None? && fw.amounts.None?)
    || (fw.blinded.Some? && fw.secrets.Some? && fw.amounts.Some?
        && 0 < |fw.blinded.value| == |fw.secrets.value| == |fw.amounts.value|)
  }

  // The proof for position i.
  function ProofAt<P(!new)>(dev: Device<P>, fw: Fw<P>, key: P, payload: Bytes, i: nat): Option<Token.Proof>
    requires Matched(fw) && fw.blinded.Some? && i < |fw.blinded.value| && |payload| == |fw.blinded.value| * ENTRY_LEN
  {
    EntryInRange(i, |fw.blinded.value|);
    ProofFor(dev, key, KeysetOf(fw.imported), fw.blinded.value[i], fw.secrets.value[i], fw.amounts.value[i],
      payload[i * ENTRY_LEN..(i + 1) * ENTRY_LEN])
  }

  lemma EntryInRange(i: nat, n: nat)
    requires i < n
    ensures 0 <= i * ENTRY_LEN <= (i + 1) * ENTRY_LEN <= n * ENTRY_LEN &&
            (i + 1) * ENTRY_LEN - i * ENTRY_LEN == ENTRY_LEN
  {
  }

  // Every entry must pass: the first one that does not rejects the whole command.
  function SendSignatures<P(!new)>(dev: Device<P>, fw: Fw<P>, payload: Bytes): (Fw<P>, Status)
    requires Matched(fw)
  {
    if fw.blinded.None? then (fw, StatusError)
    else
      var n := |fw.blinded.value|;
      if |payload| != n * ENTRY_LEN then (fw, InvalidPayload)
      else if dev.pinned.None? then (fw, CryptoError)
      else if exists i :: 0 <= i < n && ProofAt(dev, fw, dev.pinned.value, payload, i).None? then (fw, CryptoError)
      else
        (fw.(proofs := Some(seq(n, i requires 0 <= i < n => ProofAt(dev, fw, dev.pinned.value, payload, i).value)),
             phase := ProofsReady),
         StatusOk)
  }

  // ---- Exporting ----

  // "Swapped via Micronuts"
  const EXPORT_MEMO: Bytes := [
    83, 119, 97, 112, 112, 101, 100, 32, 118, 105, 97, 32, 77, 105, 99, 114, 111, 110, 117, 116, 115]

  function BuildExportToken<P>(fw: Fw<P>): Option<TokenV4>
  {
    match (fw.proofs, fw.imported)
    case (Some(ps), Some(t)) =>
      var id := if ps == [] then FALLBACK_ID else ps[0].keysetId;
      Some(Token.TokenV4(t.mint, t.unit, Some(EXPORT_MEMO), [Token.Group(id, ps)]))
    case _ => None
  }

  // ---- The object ----

  class Firmware<P(!new)> {
    const dev: Device<P>
    var imported: Option<TokenV4>
    var blinded: Option<seq<Blinded<P>>>
    var secrets: Option<seq<Bytes>>
    var amounts: Option<seq<nat>>
    var proofs: Option<seq<Token.Proof>>
    var phase: Phase

    function Now(): Fw<P>
      reads this
    {
      Fw(imported, blinded, secrets, amounts, proofs, phase)
    }

    constructor (dev: Device<P>)
      ensures this.dev == dev && Now() == Fw(None, None, None, None, None, Idle)
    {
      this.dev := dev;
      imported, blinded, secrets, amounts, proofs, phase := None, None, None, None, None, Idle;
    }

    method HandleImport(payload: Bytes) returns (status: Status)
      modifies this
      ensures (Now(), status) == Import(dev, old(Now()), payload)
    {
      var token := Token.DecodeToken(dev.lib, payload);
      if token.None? {
        return InvalidPayload;
      }
      imported := token;
      phase := TokenImported;
      status := StatusOk;
    }

    // The nested loops of `handle_get_blinded`: `draw(k)` are the random bytes drawn for the k-th proof.
    method BlindToken(t: TokenV4, draw: nat -> Bytes) returns (bs: seq<Blinded<P>>, ss: seq<Bytes>, amts: seq<nat>)
      ensures var ps := AllProofs(t.groups);
              var at := Chosen(dev, ps, draw, |ps|);
              bs == BlindedAt(dev, ps, draw, at) && ss == SecretsAt(ps, at) && amts == AmountsAt(ps, at)
    {
      hide BlindedSoFar, BlindOne, Chosen, BlindedAt, SecretsAt, AmountsAt;
      bs, ss, amts := [], [], [];
      ghost var ps := AllProofs(t.groups);
      NoneBlinded(dev, ps, draw);
      var count := 0;
      for g := 0 to |t.groups|
        invariant count == |AllProofs(t.groups[..g])| <= |ps|
        invariant BlindedSoFar(dev, ps, draw, count, bs, ss, amts)
      {
        var part := t.groups[g].proofs;
        PrefixOfAll(t.groups, g);
        ghost var base := count;
        for k := 0 to |part|
          invariant count == base + k
          invariant BlindedSoFar(dev, ps, draw, count, bs, ss, amts)
        {
          assert ps[base + k] == part[k];
          OneMoreBlinded(dev, ps, draw, count, bs, ss, amts);
          var b := BlindOne(dev, part[k], draw(count));
          if b.Some? {
            bs, ss, amts := bs + [b.value], ss + [part[k].secret], amts + [part[k].amount];
          }
          count := count + 1;
        }
      }
      assert t.groups[..|t.groups|] == t.groups;
      AllBlinded(dev, ps, draw, bs, ss, amts);
    }

    method WritePoints(bs: seq<Blinded<P>>) returns (response: Bytes)
      ensures response == Points(dev, bs)
    {
      response := [];
      for i := 0 to |bs|
        invariant response == Points(dev, bs[..i])
      {
        assert bs[..i + 1][..i] == bs[..i];
        response := response + dev.pointBytes(bs[i].point);
      }
      assert bs[..|bs|] == bs;
    }

    method HandleGetBlinded(draw: nat -> Bytes) returns (status: Status, response: Bytes)
      modifies this
      ensures (Now(), status) == GetBlinded(dev, old(Now()), draw)
      ensures status == StatusOk ==> blinded.Some? && response == Points(dev, blinded.value)
      ensures status != StatusOk ==> response == []
    {
      hide BlindOne, Chosen, AllProofs, BlindedAt, SecretsAt, AmountsAt, Points;
      response := [];
      if imported.None? {
        return StatusError, response;
      }
      var bs, ss, amts := BlindToken(imported.value, draw);
      if bs == [] {
        return CryptoError, response;
      }
      if |bs| * POINT_LEN > MAX_PAYLOAD_SIZE {
        return BufferOverflow, response;
      }
      response := WritePoints(bs);
      blinded, secrets, amounts, phase := Some(bs), Some(ss), Some(amts), BlindedGenerated;
      status := StatusOk;
    }

    // The three lists match, so the source's `unwrap` and its indexing never fail.
    method HandleSendSignatures(payload: Bytes) returns (status: Status)
      requires Matched(Now())
      modifies this
      ensures (Now(), status) == SendSignatures(dev, old(Now()), payload)
    {
      if blinded.None? {
        return StatusError;
      }
      var n := |blinded.value|;
      if |payload| % ENTRY_LEN != 0 || |payload| / ENTRY_LEN != n {
        assert |payload| != n * ENTRY_LEN;
        return InvalidPayload;
      }
      if dev.pinned.None? {
        return CryptoError;
      }
      var ps := [];
      ghost var fw := Now();
      for i := 0 to n
        invariant |ps| == i && Now() == fw
        invariant forall j :: 0 <= j < i ==> ProofAt(dev, fw, dev.pinned.value, payload, j) == Some(ps[j])
      {
        EntryInRange(i, n);
        var p := ProofFor(dev, dev.pinned.value, KeysetOf(imported), blinded.value[i], secrets.value[i],
          amounts.value[i], payload[i * ENTRY_LEN..(i + 1) * ENTRY_LEN]);
        if p.None? {
          assert ProofAt(dev, fw, dev.pinned.value, payload, i).None?;
          assert SendSignatures(dev, fw, payload) == (fw, CryptoError);
          return CryptoError;
        }
        ps := ps + [p.value];
      }
      forall i | 0 <= i < n ensures ProofAt(dev, fw, dev.pinned.value, payload, i).Some? {
        assert ProofAt(dev, fw, dev.pinned.value, payload, i) == Some(ps[i]);
      }
      assert ps == seq(n, i requires 0 <= i < n => ProofAt(dev, fw, dev.pinned.value, payload, i).value);
      proofs, phase := Some(ps), ProofsReady;
      status := StatusOk;
    }
  }

  ghost predicate BlindedSoFar<P(!new)>(dev: Device<P>, ps: seq<Token.Proof>, draw: nat -> Bytes, n: nat,
                                        bs: seq<Blinded<P>>, ss: seq<Bytes>, amts: seq<nat>)
  {
    && n <= |ps|
    && var at := Chosen(dev, ps, draw, n);
       && |bs| == |ss| == |amts| == |at|
       && forall i :: 0 <= i < |at| ==>
            && bs[i] == BlindOne(dev, ps[at[i]], draw(at[i])).value
            && ss[i] == ps[at[i]].secret && amts[i] == ps[at[i]].amount
  }

  lemma NoneBlinded<P(!new)>(dev: Device<P>, ps: seq<Token.Proof>, draw: nat -> Bytes)
    ensures BlindedSoFar(dev, ps, draw, 0, [], [], [])
  {
  }

  lemma {:induction false} OneMoreBlinded<P(!new)>(dev: Device<P>, ps: seq<Token.Proof>, draw: nat -> Bytes, n: nat,
                                                   bs: seq<Blinded<P>>, ss: seq<Bytes>, amts: seq<nat>)
    requires n < |ps| && BlindedSoFar(dev, ps, draw, n, bs, ss, amts)
    ensures match BlindOne(dev, ps[n], draw(n))
            case None => BlindedSoFar(dev, ps, draw, n + 1, bs, ss, amts)
            case Some(b) => BlindedSoFar(dev, ps, draw, n + 1, bs + [b], ss + [ps[n].secret], amts + [ps[n].amount])
  {
    hide BlindOne;
    var at, at' := Chosen(dev, ps, draw, n), Chosen(dev, ps, draw, n + 1);
    assert at' == if BlindOne(dev, ps[n], draw(n)).Some? then at + [n] else at;
    hide Chosen;
    assert forall i :: 0 <= i < |at| ==> at'[i] == at[i];
  }

  lemma AllBlinded<P(!new)>(dev: Device<P>, ps: seq<Token.Proof>, draw: nat -> Bytes, bs: seq<Blinded<P>>,
                            ss: seq<Bytes>, amts: seq<nat>)
    requires BlindedSoFar(dev, ps, draw, |ps|, bs, ss, amts)
    ensures var at := Chosen(dev, ps, draw, |ps|);
            bs == BlindedAt(dev, ps, draw, at) && ss == SecretsAt(ps, at) && amts == AmountsAt(ps, at)
  {
    hide BlindOne, Chosen;
  }

  // The proofs of group g sit right after those of the groups before it.
  lemma {:induction false} PrefixOfAll(groups: seq<Token.Group>, g: nat)
    requires g < |groups|
    ensures var base := |AllProofs(groups[..g])|;
            && |AllProofs(groups[..g + 1])| == base + |groups[g].proofs| <= |AllProofs(groups)|
            && forall k :: 0 <= k < |groups[g].proofs| ==> AllProofs(groups)[base + k] == groups[g].proofs[k]
    decreases |groups|
  {
    assert groups[..g + 1][..g] == groups[..g];
    if g + 1 < |groups| {
      var front := groups[..|groups| - 1];
      assert front[..g] == groups[..g] && front[..g + 1] == groups[..g + 1];
      PrefixOfAll(front, g);
    } else {
      assert groups[..g + 1] == groups;
    }
  }
}
