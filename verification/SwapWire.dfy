/**
 The commands of the device's swap in terms of the bytes on the wire: which random bytes and which payloads are
 accepted, and what comes of them
 (micronuts-app/src/command_handler.rs, `handle_get_blinded`, `handle_send_signatures`).
 */
module SwapWire {
  import opened Results
  import opened Cbor
  import opened SwapDevice
  import opened SwapRuns
  import Token
  import BlindSignatures

  // ---- GetBlinded ----

  // The k-th proof of the token can be blinded with the k-th random bytes.
  ghost predicate Blindable<P(!new)>(dev: Device<P>, ps: seq<Token.Proof>, draw: nat -> Bytes, k: nat)
    requires k < |ps|
  {
    exists r: Bytes :: dev.lib.scalar(draw(k)) == Some(r) && dev.blind(ps[k].secret, r).Some?
  }

  // The positions, in order, of all proofs that can be blinded.
  ghost predicate AllBlindable<P(!new)>(dev: Device<P>, ps: seq<Token.Proof>, draw: nat -> Bytes, at: seq<nat>)
  {
    && Ascends(at) && (forall i :: 0 <= i < |at| ==> at[i] < |ps|)
    && (forall k :: 0 <= k < |ps| ==> (k in at <==> Blindable(dev, ps, draw, k)))
  }

  // Position i of the pending swap belongs to proof k: its own random bytes, its own secret and amount.
  ghost predicate PendingFrom<P(!new)>(dev: Device<P>, fw: Fw<P>, p: Token.Proof, drawn: Bytes, i: nat)
    requires Matched(fw) && fw.blinded.Some? && i < |fw.blinded.value|
  {
    var b := fw.blinded.value[i];
    && dev.lib.scalar(drawn) == Some(b.blinder) && dev.blind(p.secret, b.blinder) == Some(b.point)
    && fw.secrets.value[i] == p.secret && fw.amounts.value[i] == p.amount
  }

  /** Exactly when `GetBlinded` succeeds, what it leaves pending, and how it fails otherwise. */
  lemma GetBlindedGives<P(!new)>(dev: Device<P>, fw: Fw<P>, draw: nat -> Bytes, at: seq<nat>)
    requires fw.imported.Some? ==> AllBlindable(dev, AllProofs(fw.imported.value.groups), draw, at)
    ensures var (fw', status) := GetBlinded(dev, fw, draw);
            && (status == StatusOk <==> fw.imported.Some? && 0 < |at| && 33 * |at| <= 1024)
            && (status == StatusError <==> fw.imported.None?)
            && (status == CryptoError <==> fw.imported.Some? && at == [])
            && (status == BufferOverflow <==> fw.imported.Some? && 33 * |at| > 1024)
            && (status == StatusOk ==>
                  && fw'.imported == fw.imported && fw'.proofs == fw.proofs && fw'.phase == BlindedGenerated
                  && fw'.blinded.Some? && Matched(fw') && |fw'.blinded.value| == |at|
                  && var ps := AllProofs(fw.imported.value.groups);
                     forall i :: 0 <= i < |at| ==> PendingFrom(dev, fw', ps[at[i]], draw(at[i]), i))
  {
    hide AllProofs, Chosen, AllBlindable, Blindable;
    if fw.imported.Some? {
      var ps := AllProofs(fw.imported.value.groups);
      ChosenIsAll(dev, ps, draw, at);
      assert forall i :: 0 <= i < |at| ==> BlindOne(dev, ps[at[i]], draw(at[i])).Some?;
    }
  }

  lemma ChosenIsAll<P(!new)>(dev: Device<P>, ps: seq<Token.Proof>, draw: nat -> Bytes, at: seq<nat>)
    requires AllBlindable(dev, ps, draw, at)
    ensures at == Chosen(dev, ps, draw, |ps|)
  {
    var chosen := Chosen(dev, ps, draw, |ps|);
    forall k: nat ensures k in at <==> k in chosen {
      if k < |ps| {
        assert Blindable(dev, ps, draw, k) <==> BlindOne(dev, ps[k], draw(k)).Some?;
      } else {
        NotListed(at, |ps|, k);
        NotListed(chosen, |ps|, k);
      }
    }
    SameMembers(at, chosen);
  }

  lemma NotListed(a: seq<nat>, n: nat, k: nat)
    requires (forall i :: 0 <= i < |a| ==> a[i] < n) && k >= n
    ensures k !in a
  {
  }

  ghost predicate Ascends(a: seq<nat>) { forall i, j :: 0 <= i < j < |a| ==> a[i] < a[j] }

  lemma FrontMembers(a: seq<nat>, k: nat)
    requires Ascends(a) && a != []
    ensures var front := a[..|a| - 1];
            Ascends(front) && (k in front <==> k in a && k != a[|a| - 1])
  {
    var front := a[..|a| - 1];
    assert a == front + [a[|a| - 1]];
  }

  // Ascending lists with the same members are the same list.
  lemma {:induction false} SameMembers(a: seq<nat>, b: seq<nat>)
    requires Ascends(a) && Ascends(b) && forall k: nat :: k in a <==> k in b
    ensures a == b
    decreases |a|
  {
    if a == [] {
      HasMember(b);
    } else {
      hide Ascends;
      assert a[0] in b;
      var m, n := |a| - 1, |b| - 1;
      LastIsLargest(a, b[n]);
      LastIsLargest(b, a[m]);
      var front, front' := a[..m], b[..n];
      forall k: nat ensures k in front <==> k in front' {
        FrontMembers(a, k);
        FrontMembers(b, k);
      }
      FrontMembers(a, 0);
      FrontMembers(b, 0);
      SameMembers(front, front');
      assert a == front + [a[m]] && b == front' + [b[n]];
    }
  }

  lemma HasMember(b: seq<nat>)
    ensures b == [] || exists k: nat :: k in b
  {
    if b != [] {
      assert b[0] in b;
    }
  }

  lemma LastIsLargest(a: seq<nat>, k: nat)
    requires Ascends(a) && k in a
    ensures a != [] && k <= a[|a| - 1]
  {
  }

  /** The answer is the points of the pending outputs: with 33-byte points, point i is at bytes 33i to 33i + 33. */
  lemma {:induction false} PointAt<P(!new)>(dev: Device<P>, bs: seq<Blinded<P>>, i: nat)
    requires i < |bs| && forall p :: |dev.pointBytes(p)| == 33
    ensures |Points(dev, bs)| == 33 * |bs|
    ensures Points(dev, bs)[33 * i..33 * i + 33] == dev.pointBytes(bs[i].point)
    decreases |bs|
  {
    var front := bs[..|bs| - 1];
    PointsLength(dev, front);
    if i == |bs| - 1 {
    } else {
      PointAt(dev, front, i);
      assert Points(dev, bs)[33 * i..33 * i + 33] == Points(dev, front)[33 * i..33 * i + 33];
    }
  }

  lemma {:induction false} PointsLength<P(!new)>(dev: Device<P>, bs: seq<Blinded<P>>)
    requires forall p :: |dev.pointBytes(p)| == 33
    ensures |Points(dev, bs)| == 33 * |bs|
  {
    if bs == [] {
    } else {
      PointsLength(dev, bs[..|bs| - 1]);
    }
  }

  // ---- SendSignatures ----

  // Entry i of the payload: 33 bytes of a point c, 32 of a scalar e, 32 of a scalar s, with a DLEQ proof that holds for
  // the pending output and the pinned key; u is the unblinded point.
  ghost predicate EntryIs<P(!new)>(dev: Device<P>, b: Blinded<P>, payload: Bytes, i: nat, c: P, e: Bytes, s: Bytes,
                                   u: P)
    requires 97 * i + 97 <= |payload| && dev.pinned.Some?
  {
    var at := 97 * i;
    && dev.parsePoint(payload[at..at + 33]) == Some(c)
    && dev.lib.scalar(payload[at + 33..at + 65]) == Some(e)
    && dev.lib.scalar(payload[at + 65..at + 97]) == Some(s)
    && dev.verifyDleq(b.point, c, e, s, dev.pinned.value)
    && dev.unblind(c, b.blinder, dev.pinned.value) == Some(u)
  }

  ghost predicate ValidEntry<P(!new)>(dev: Device<P>, b: Blinded<P>, payload: Bytes, i: nat)
    requires 97 * i + 97 <= |payload| && dev.pinned.Some?
  {
    exists c: P, e: Bytes, s: Bytes, u: P :: EntryIs(dev, b, payload, i, c, e, s, u)
  }

  // The id of the first group of the imported token, or "00".
  function SwapKeyset<P>(fw: Fw<P>): Bytes
  {
    if fw.imported.None? || |fw.imported.value.groups| == 0 then [0x30, 0x30] else fw.imported.value.groups[0].keysetId
  }

  lemma EntryIff<P(!new)>(dev: Device<P>, fw: Fw<P>, payload: Bytes, i: nat)
    requires Matched(fw) && fw.blinded.Some? && dev.pinned.Some?
    requires i < |fw.blinded.value| && |payload| == 97 * |fw.blinded.value|
    ensures var p := ProofAt(dev, fw, dev.pinned.value, payload, i);
            && (p.Some? <==> ValidEntry(dev, fw.blinded.value[i], payload, i))
            && (forall c, e, s, u :: EntryIs(dev, fw.blinded.value[i], payload, i, c, e, s, u) ==>
                  p == Some(Token.Proof(fw.amounts.value[i], SwapKeyset(fw), fw.secrets.value[i], dev.pointBytes(u),
                                        Some(Token.Dleq(e, s, fw.blinded.value[i].blinder)))))
  {
    EntryInRange(i, |fw.blinded.value|);
    var at := 97 * i;
    var entry := payload[i * ENTRY_LEN..(i + 1) * ENTRY_LEN];
    assert entry[..33] == payload[at..at + 33] && entry[33..65] == payload[at + 33..at + 65];
    assert entry[65..] == payload[at + 65..at + 97];
    var p := ProofAt(dev, fw, dev.pinned.value, payload, i);
    if p.Some? {
      var b, c := fw.blinded.value[i], dev.parsePoint(entry[..33]).value;
      var e, s := dev.lib.scalar(entry[33..65]).value, dev.lib.scalar(entry[65..]).value;
      assert EntryIs(dev, b, payload, i, c, e, s, dev.unblind(c, b.blinder, dev.pinned.value).value);
    }
  }

  /** Exactly which payloads `SendSignatures` accepts, byte for byte, and how it fails otherwise. */
  lemma SendSignaturesIff<P(!new)>(dev: Device<P>, fw: Fw<P>, payload: Bytes)
    requires Matched(fw)
    ensures var status := SendSignatures(dev, fw, payload).1;
            && (status == StatusOk <==>
                  && fw.blinded.Some? && dev.pinned.Some? && |payload| == 97 * |fw.blinded.value|
                  && forall i :: 0 <= i < |fw.blinded.value| ==> ValidEntry(dev, fw.blinded.value[i], payload, i))
            && (status == StatusError <==> fw.blinded.None?)
            && (status == InvalidPayload <==> fw.blinded.Some? && |payload| != 97 * |fw.blinded.value|)
            && status != BufferOverflow
  {
    hide ProofAt, ValidEntry;
    if fw.blinded.Some? && dev.pinned.Some? && |payload| == 97 * |fw.blinded.value| {
      forall i | 0 <= i < |fw.blinded.value|
        ensures ProofAt(dev, fw, dev.pinned.value, payload, i).Some? <==>
                ValidEntry(dev, fw.blinded.value[i], payload, i)
      {
        EntryIff(dev, fw, payload, i);
      }
    }
  }

  /** What an accepted payload leaves: one proof per pending output, in order, with that output's secret and amount, the
      unblinded point, and the DLEQ scalars of its own entry together with its blinder. */
  lemma AcceptedProofsAre<P(!new)>(dev: Device<P>, fw: Fw<P>, payload: Bytes, i: nat, c: P, e: Bytes, s: Bytes, u: P)
    requires Matched(fw) && SendSignatures(dev, fw, payload).1 == StatusOk
    requires fw.blinded.Some? && i < |fw.blinded.value| && dev.pinned.Some? && |payload| == 97 * |fw.blinded.value|
    requires EntryIs(dev, fw.blinded.value[i], payload, i, c, e, s, u)
    ensures var fw' := SendSignatures(dev, fw, payload).0;
            && fw'.proofs.Some? && |fw'.proofs.value| == |fw.blinded.value|
            && fw' == fw.(proofs := fw'.proofs, phase := ProofsReady)
            && var dleq := Token.Dleq(e, s, fw.blinded.value[i].blinder);
               fw'.proofs.value[i] ==
               Token.Proof(fw.amounts.value[i], SwapKeyset(fw), fw.secrets.value[i], dev.pointBytes(u), Some(dleq))
  {
    hide ProofAt;
    EntryIff(dev, fw, payload, i);
  }

  /** An honest mint is always accepted: with the device's calls those of a prime-order group, a payload whose entries
      carry the mint's signatures on the pending outputs, with DLEQ proofs that hold, makes the proofs ready. */
  lemma HonestSignaturesAreAccepted<P(!new)>(dev: Device<P>, g: BlindSignatures.Curve<P, Bytes>, num: Bytes -> nat,
                                             k: nat, tr: Track<P>, payload: Bytes)
    requires OnCurve(dev, g, num, k) && SwapInv(dev, tr) && tr.fw.blinded.Some?
    requires |payload| == 97 * |tr.fw.blinded.value|
    requires forall i :: 0 <= i < |tr.fw.blinded.value| ==>
               HonestEntry(dev, tr.fw.blinded.value[i], payload, i, g.Sign(k, tr.fw.blinded.value[i].point))
    ensures SendSignatures(dev, tr.fw, payload).1 == StatusOk
  {
    hide SwapInv, ValidEntry;
    InvMatches(dev, tr);
    SendSignaturesIff(dev, tr.fw, payload);
    forall i | 0 <= i < |tr.fw.blinded.value| ensures ValidEntry(dev, tr.fw.blinded.value[i], payload, i) {
      HonestEntryIsValid(dev, g, num, k, tr, payload, i);
    }
  }

  ghost predicate HonestEntry<P(!new)>(dev: Device<P>, b: Blinded<P>, payload: Bytes, i: nat, c: P)
    requires 97 * i + 97 <= |payload| && dev.pinned.Some?
  {
    var at := 97 * i;
    && dev.parsePoint(payload[at..at + 33]) == Some(c)
    && dev.lib.scalar(payload[at + 33..at + 65]).Some? && dev.lib.scalar(payload[at + 65..at + 97]).Some?
    && dev.verifyDleq(b.point, c, dev.lib.scalar(payload[at + 33..at + 65]).value,
                      dev.lib.scalar(payload[at + 65..at + 97]).value, dev.pinned.value)
  }

  lemma HonestEntryIsValid<P(!new)>(dev: Device<P>, g: BlindSignatures.Curve<P, Bytes>, num: Bytes -> nat, k: nat,
                                    tr: Track<P>, payload: Bytes, i: nat)
    requires OnCurve(dev, g, num, k) && SwapInv(dev, tr) && tr.fw.blinded.Some?
    requires |payload| == 97 * |tr.fw.blinded.value| && i < |tr.fw.blinded.value|
    requires HonestEntry(dev, tr.fw.blinded.value[i], payload, i, g.Sign(k, tr.fw.blinded.value[i].point))
    ensures ValidEntry(dev, tr.fw.blinded.value[i], payload, i)
  {
    hide Imported, InOrderIn, ProofsOk, BlindSignatures.Curve.PrimeOrder, BlindSignatures.Curve.Mul,
         BlindSignatures.Curve.Blind, BlindSignatures.Curve.Unblind;
    var b, secret := tr.fw.blinded.value[i], tr.fw.secrets.value[i];
    assert Blinds(dev, b, secret);
    var r, c, at := num(b.blinder), g.Sign(k, b.point), 97 * i;
    assert g.Blind(secret, r) == Some(b.point);
    g.BlindSignUnblind(secret, r, k);
    var u := g.Mul(k, g.hash(secret).value);
    assert dev.unblind(c, b.blinder, dev.pinned.value) == Some(u);
    var e, s := dev.lib.scalar(payload[at + 33..at + 65]).value, dev.lib.scalar(payload[at + 65..at + 97]).value;
    assert EntryIs(dev, b, payload, i, c, e, s, u);
  }
}
