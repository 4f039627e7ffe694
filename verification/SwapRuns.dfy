/** What holds of the device's swap state after any sequence of commands. */
module SwapRuns {
  import opened Results
  import opened Cbor
  import opened SwapDevice
  import Token
  import BlindSignatures

  datatype Command =
    | CmdImport(payload: Bytes)
    | CmdScan(token: TokenV4)              // a QR or NFC capture that completes a token
    | CmdGetBlinded(draw: nat -> Bytes)
    | CmdSendSignatures(payload: Bytes)
    | CmdOther                             // every other command leaves the swap state alone

  // The state, the token blinded last, and the token the ready proofs were blinded from.
  datatype Track<P> = Track(fw: Fw<P>, source: Option<TokenV4>, origin: Option<TokenV4>)

  function Start<P>(): Track<P>
  {
    Track(Fw(None, None, None, None, None, Idle), None, None)
  }

  function Step<P(!new)>(dev: Device<P>, tr: Track<P>, cmd: Command): Track<P>
    requires Matched(tr.fw)
  {
    match cmd
    case CmdImport(payload) => tr.(fw := Import(dev, tr.fw, payload).0)
    case CmdScan(token) => tr.(fw := Scanned(tr.fw, token))
    case CmdGetBlinded(draw) =>
      var (fw, status) := GetBlinded(dev, tr.fw, draw);
      tr.(fw := fw, source := if status == StatusOk then tr.fw.imported else tr.source)
    case CmdSendSignatures(payload) =>
      var (fw, status) := SendSignatures(dev, tr.fw, payload);
      tr.(fw := fw, origin := if status == StatusOk then tr.source else tr.origin)
    case CmdOther => tr
  }

  // ---- The invariant ----

  // (secret, amount) pairs that occur in this order in the token.
  ghost predicate InOrderIn(ss: seq<Bytes>, amts: seq<nat>, t: TokenV4)
  {
    && |ss| == |amts|
    && exists at: seq<nat> :: PicksOut(at, ss, amts, AllProofs(t.groups))
  }

  ghost predicate PicksOut(at: seq<nat>, ss: seq<Bytes>, amts: seq<nat>, ps: seq<Token.Proof>)
  {
    && |at| == |ss| == |amts|
    && (forall i, j :: 0 <= i < j < |at| ==> at[i] < at[j])
    && forall i :: 0 <= i < |at| ==> at[i] < |ps| && ps[at[i]].secret == ss[i] && ps[at[i]].amount == amts[i]
  }

  // Token came out of the token decoder: well typed and in normal form.
  predicate Imported(lib: Token.Lib, t: TokenV4)
  {
    && Token.TokenTyped(lib, t)
    && (forall i :: 0 <= i < |t.groups| ==> Token.HexDecode(t.groups[i].keysetId).Some?)
    && Token.IdsCanonical(t)
  }

  // A canonical scalar.
  predicate IsScalar(lib: Token.Lib, b: Bytes) { |b| == 32 && lib.scalar(b) == Some(b) }

  // A blinded output really blinds its secret.
  predicate Blinds<P(!new,==)>(dev: Device<P>, b: Blinded<P>, secret: Bytes)
  {
    IsScalar(dev.lib, b.blinder) && dev.blind(secret, b.blinder) == Some(b.point)
  }

  // A proof that passed the DLEQ check against the pinned key and was unblinded under it.
  ghost predicate Checked<P(!new)>(dev: Device<P>, key: P, p: Token.Proof)
  {
    && p.dleq.Some? && Token.DleqTyped(dev.lib, p.dleq.value)
    && var d := p.dleq.value;
       exists b: P, c: P, u: P ::
         && dev.blind(p.secret, d.r) == Some(b)
         && dev.verifyDleq(b, c, d.e, d.s, key)
         && dev.unblind(c, d.r, key) == Some(u)
         && p.c == dev.pointBytes(u)
  }

  function SecretsOf(ps: seq<Token.Proof>): seq<Bytes> { seq(|ps|, i requires 0 <= i < |ps| => ps[i].secret) }

  function AmountsOf(ps: seq<Token.Proof>): seq<nat> { seq(|ps|, i requires 0 <= i < |ps| => ps[i].amount) }

  // The pending swap comes, in order, from the token blinded last.
  ghost predicate PendingOk<P(!new)>(dev: Device<P>, tr: Track<P>)
  {
    && Matched(tr.fw)
    && (tr.fw.blinded.Some? ==>
          && tr.fw.imported.Some? && tr.source.Some? && Imported(dev.lib, tr.source.value)
          && InOrderIn(tr.fw.secrets.value, tr.fw.amounts.value, tr.source.value)
          && forall i :: 0 <= i < |tr.fw.blinded.value| ==> Blinds(dev, tr.fw.blinded.value[i], tr.fw.secrets.value[i]))
  }

  // The proofs held come, in order, from the token they were blinded from, and all passed the check.
  ghost predicate ProofsOk<P(!new)>(dev: Device<P>, tr: Track<P>)
  {
    tr.fw.proofs.Some? ==>
      var ps := tr.fw.proofs.value;
      && ps != [] && tr.fw.imported.Some? && dev.pinned.Some?
      && tr.origin.Some? && Imported(dev.lib, tr.origin.value)
      && InOrderIn(SecretsOf(ps), AmountsOf(ps), tr.origin.value)
      && Token.CanonicalId(ps[0].keysetId)
      && forall i :: 0 <= i < |ps| ==>
           && Checked(dev, dev.pinned.value, ps[i])
           && ps[i].keysetId == ps[0].keysetId && |ps[i].c| == POINT_LEN
  }

  ghost predicate SwapInv<P(!new)>(dev: Device<P>, tr: Track<P>)
  {
    && (tr.fw.imported.Some? ==> Imported(dev.lib, tr.fw.imported.value))
    && PendingOk(dev, tr)
    && ProofsOk(dev, tr)
    && (tr.fw.phase == ProofsReady ==> tr.fw.imported.Some? && tr.fw.proofs.Some?)
  }

  // What is asked of the environment: payloads have a length a machine can hold, scanned tokens come from the
  // same decoder, and encoded points are 33 bytes.
  ghost predicate Allowed<P(!new)>(dev: Device<P>, cmd: Command)
  {
    && (cmd.CmdImport? ==> |cmd.payload| < U64_LIMIT)
    && (cmd.CmdScan? ==> Imported(dev.lib, cmd.token))
    && forall u :: |dev.pointBytes(u)| == POINT_LEN
  }

  lemma ImportKeeps<P(!new)>(dev: Device<P>, tr: Track<P>, payload: Bytes)
    requires SwapInv(dev, tr) && |payload| < U64_LIMIT
    ensures SwapInv(dev, tr.(fw := Import(dev, tr.fw, payload).0))
  {
    hide Token.DecodeToken, Token.TokenTyped, Token.IdsCanonical, InOrderIn, Checked;
    if Token.DecodeToken(dev.lib, payload).Some? {
      DecodedIsImported(dev.lib, payload);
    }
  }

  lemma DecodedIsImported(lib: Token.Lib, data: Bytes)
    requires |data| < U64_LIMIT && Token.DecodeToken(lib, data).Some?
    ensures Imported(lib, Token.DecodeToken(lib, data).value)
  {
    hide Token.DecodeToken, Token.TokenTyped, Token.IdsCanonical, Token.PutToken, Token.HexDecode;
    var t := Token.DecodeToken(lib, data).value;
    Token.AcceptedTokensAreFixedPoints(lib, data);
    assert Token.EncodeToken(lib, t).Some?;
    Token.ReadsBackIffNormal(lib, t);
  }

  lemma BlindedOneBlinds<P(!new)>(dev: Device<P>, p: Token.Proof, draw: Bytes)
    requires BlindOne(dev, p, draw).Some?
    ensures Blinds(dev, BlindOne(dev, p, draw).value, p.secret)
  {
    assert dev.lib.Sound();
  }

  lemma GetBlindedKeeps<P(!new)>(dev: Device<P>, tr: Track<P>, draw: nat -> Bytes)
    requires SwapInv(dev, tr)
    ensures SwapInv(dev, Step(dev, tr, CmdGetBlinded(draw)))
  {
    hide Imported, Checked, AllProofs, PicksOut, BlindOne, Blinds, Chosen;
    var (fw, status) := GetBlinded(dev, tr.fw, draw);
    if status == StatusOk {
      var ps := AllProofs(tr.fw.imported.value.groups);
      var at := Chosen(dev, ps, draw, |ps|);
      forall i | 0 <= i < |at| ensures Blinds(dev, fw.blinded.value[i], fw.secrets.value[i]) {
        BlindedOneBlinds(dev, ps[at[i]], draw(at[i]));
      }
      ChosenPicksOut(dev, ps, draw, at, fw.secrets.value, fw.amounts.value);
      assert InOrderIn(fw.secrets.value, fw.amounts.value, tr.fw.imported.value);
    }
  }

  lemma ChosenPicksOut<P(!new)>(dev: Device<P>, ps: seq<Token.Proof>, draw: nat -> Bytes, at: seq<nat>, ss: seq<Bytes>,
                                amts: seq<nat>)
    requires at == Chosen(dev, ps, draw, |ps|) && |ss| == |amts| == |at|
    requires forall i :: 0 <= i < |at| ==> ss[i] == ps[at[i]].secret && amts[i] == ps[at[i]].amount
    ensures PicksOut(at, ss, amts, ps)
  {
  }

  // What one accepted entry gives.
  lemma AcceptedEntry<P(!new)>(dev: Device<P>, tr: Track<P>, key: P, payload: Bytes, i: nat)
    requires PendingOk(dev, tr) && tr.fw.blinded.Some? && i < |tr.fw.blinded.value| &&
             |payload| == |tr.fw.blinded.value| * ENTRY_LEN
    requires ProofAt(dev, tr.fw, key, payload, i).Some? && forall u :: |dev.pointBytes(u)| == POINT_LEN
    ensures var p := ProofAt(dev, tr.fw, key, payload, i).value;
            && Checked(dev, key, p) && |p.c| == POINT_LEN
            && p.keysetId == KeysetOf(tr.fw.imported)
            && p.secret == tr.fw.secrets.value[i] && p.amount == tr.fw.amounts.value[i]
  {
    hide Imported, InOrderIn, KeysetOf;
    EntryInRange(i, |tr.fw.blinded.value|);
    assert Blinds(dev, tr.fw.blinded.value[i], tr.fw.secrets.value[i]);
    AcceptedProof(dev, key, KeysetOf(tr.fw.imported), tr.fw.blinded.value[i], tr.fw.secrets.value[i],
      tr.fw.amounts.value[i], payload[i * ENTRY_LEN..(i + 1) * ENTRY_LEN]);
  }

  lemma AcceptedProof<P(!new)>(dev: Device<P>, key: P, id: Bytes, b: Blinded<P>, secret: Bytes, amount: nat,
                               entry: Bytes)
    requires |entry| == ENTRY_LEN && Blinds(dev, b, secret) && forall u :: |dev.pointBytes(u)| == POINT_LEN
    requires ProofFor(dev, key, id, b, secret, amount, entry).Some?
    ensures var p := ProofFor(dev, key, id, b, secret, amount, entry).value;
            Checked(dev, key, p) && |p.c| == POINT_LEN && p.keysetId == id && p.secret == secret && p.amount == amount
  {
    var p := ProofFor(dev, key, id, b, secret, amount, entry).value;
    var e, t := dev.lib.scalar(entry[33..65]), dev.lib.scalar(entry[65..]);
    assert p.dleq == Some(Token.Dleq(e.value, t.value, b.blinder));
    assert dev.lib.Sound();
    assert Token.DleqTyped(dev.lib, p.dleq.value);
  }

  lemma KeysetIsCanonical(lib: Token.Lib, imported: Option<TokenV4>)
    requires imported.Some? ==> Imported(lib, imported.value)
    ensures Token.CanonicalId(KeysetOf(imported))
  {
    if imported.Some? && imported.value.groups != [] {
      assert Token.GroupTyped(lib, imported.value.groups[0]);
    } else {
      assert Token.HexDecode(FALLBACK_ID) == Some([0]) by {
        assert FALLBACK_ID[2..] == [];
        assert [0] + [] == [0];
      }
      assert Token.HexEncode([0]) == FALLBACK_ID by {
        assert [0][1..] == [];
        assert Token.HexEncode([]) == [];
      }
    }
  }

  lemma SendSignaturesKeeps<P(!new)>(dev: Device<P>, tr: Track<P>, payload: Bytes)
    requires SwapInv(dev, tr) && forall u :: |dev.pointBytes(u)| == POINT_LEN
    ensures SwapInv(dev, Step(dev, tr, CmdSendSignatures(payload)))
  {
    hide Imported, Checked, InOrderIn, ProofAt, KeysetOf, Blinds;
    var (fw, status) := SendSignatures(dev, tr.fw, payload);
    if status == StatusOk {
      var ps, key := fw.proofs.value, dev.pinned.value;
      forall i | 0 <= i < |ps|
        ensures Checked(dev, key, ps[i]) && |ps[i].c| == POINT_LEN && ps[i].keysetId == KeysetOf(tr.fw.imported)
        ensures ps[i].secret == tr.fw.secrets.value[i] && ps[i].amount == tr.fw.amounts.value[i]
      {
        AcceptedEntry(dev, tr, key, payload, i);
      }
      assert SecretsOf(ps) == tr.fw.secrets.value && AmountsOf(ps) == tr.fw.amounts.value;
      KeysetIsCanonical(dev.lib, tr.fw.imported);
    }
  }

  lemma StepKeepsInv<P(!new)>(dev: Device<P>, tr: Track<P>, cmd: Command)
    requires SwapInv(dev, tr) && Allowed(dev, cmd)
    ensures SwapInv(dev, Step(dev, tr, cmd))
  {
    hide Imported, Checked, InOrderIn, Blinds, Import, GetBlinded, SendSignatures;
    match cmd
    case CmdImport(payload) => ImportKeeps(dev, tr, payload);
    case CmdScan(token) =>
    case CmdGetBlinded(draw) => GetBlindedKeeps(dev, tr, draw);
    case CmdSendSignatures(payload) => SendSignaturesKeeps(dev, tr, payload);
    case CmdOther =>
  }

  // ---- Whole command sequences ----

  // A run is a list of states, each the successor of the one before. Nothing is assumed of the lists of a pending
  // swap: if they ever were out of step, anything could follow (the source would panic).
  ghost predicate IsRun<P(!new)>(dev: Device<P>, cmds: seq<Command>, trs: seq<Track<P>>)
  {
    && |trs| == |cmds| + 1 && trs[0] == Start()
    && forall i :: 0 <= i < |cmds| ==>
         && Allowed(dev, cmds[i])
         && (Matched(trs[i].fw) ==> trs[i + 1] == Step(dev, trs[i], cmds[i]))
  }

  lemma InvMatches<P(!new)>(dev: Device<P>, tr: Track<P>)
    requires SwapInv(dev, tr)
    ensures Matched(tr.fw)
  {
  }

  /** After every command of every sequence: the pending lists match, ready proofs are non-empty, passed the
      DLEQ check against the pinned key, and list, in order, secrets and amounts of the token that was held
      when they were blinded. */
  lemma {:induction false} SwapStateInvariant<P(!new)>(dev: Device<P>, cmds: seq<Command>, trs: seq<Track<P>>, i: nat)
    requires IsRun(dev, cmds, trs) && i <= |cmds|
    ensures SwapInv(dev, trs[i])
    decreases i
  {
    hide SwapInv, Step, Allowed, Matched;
    if i == 0 {
      StartIsOk(dev);
    } else {
      SwapStateInvariant(dev, cmds, trs, i - 1);
      InvMatches(dev, trs[i - 1]);
      assert trs[(i - 1) + 1] == Step(dev, trs[i - 1], cmds[i - 1]);
      StepKeepsInv(dev, trs[i - 1], cmds[i - 1]);
    }
  }

  /** Every sequence of commands has a run, and in it the device steps from state to state: the lists never get out
      of step, so the source's `unwrap` never fails. */
  lemma {:induction false} EverySequenceRuns<P(!new)>(dev: Device<P>, cmds: seq<Command>) returns (trs: seq<Track<P>>)
    requires forall i :: 0 <= i < |cmds| ==> Allowed(dev, cmds[i])
    ensures IsRun(dev, cmds, trs)
    ensures forall i :: 0 <= i < |cmds| ==> Matched(trs[i].fw) && trs[i + 1] == Step(dev, trs[i], cmds[i])
    decreases |cmds|
  {
    hide Step, Allowed, SwapInv, Matched, Start;
    if cmds == [] {
      trs := [Start()];
    } else {
      var n := |cmds| - 1;
      var front := cmds[..n];
      var before := EverySequenceRuns(dev, front);
      SwapStateInvariant(dev, front, before, n);
      InvMatches(dev, before[n]);
      trs := before + [Step(dev, before[n], cmds[n])];
      forall i | 0 <= i < |cmds| ensures Matched(trs[i].fw) && trs[i + 1] == Step(dev, trs[i], cmds[i]) {
        if i < n {
          assert trs[i] == before[i] && trs[i + 1] == before[i + 1] && front[i] == cmds[i];
        }
      }
    }
  }

  lemma StartIsOk<P(!new)>(dev: Device<P>)
    ensures SwapInv(dev, Start())
  {
  }

  /** A rejected command changes nothing: neither a token, a pending swap nor ready proofs are lost. */
  lemma RejectedCommandsChangeNothing<P(!new)>(dev: Device<P>, fw: Fw<P>, payload: Bytes, draw: nat -> Bytes)
    requires Matched(fw)
    ensures Import(dev, fw, payload).1 != StatusOk ==> Import(dev, fw, payload).0 == fw
    ensures GetBlinded(dev, fw, draw).1 != StatusOk ==> GetBlinded(dev, fw, draw).0 == fw
    ensures SendSignatures(dev, fw, payload).1 != StatusOk ==> SendSignatures(dev, fw, payload).0 == fw
  {
  }

  // ---- The phase ----

  predicate Accepts<P(!new)>(dev: Device<P>, fw: Fw<P>, cmd: Command)
  {
    match cmd
    case CmdImport(payload) => Import(dev, fw, payload).1 == StatusOk
    case CmdScan(_) => true
    case CmdGetBlinded(draw) => GetBlinded(dev, fw, draw).1 == StatusOk
    case CmdSendSignatures(payload) => Matched(fw) && SendSignatures(dev, fw, payload).1 == StatusOk
    case CmdOther => false
  }

  function PhaseOf(cmd: Command): Phase
  {
    match cmd
    case CmdImport(_) => TokenImported
    case CmdScan(_) => TokenImported
    case CmdGetBlinded(_) => BlindedGenerated
    case CmdSendSignatures(_) => ProofsReady
    case CmdOther => Idle
  }

  // The last command accepted among the first n, if any.
  ghost predicate LastAccepted<P(!new)>(dev: Device<P>, cmds: seq<Command>, trs: seq<Track<P>>, n: nat, k: nat)
    requires IsRun(dev, cmds, trs) && n <= |cmds|
  {
    && k < n && Accepts(dev, trs[k].fw, cmds[k])
    && forall j :: k < j < n ==> !Accepts(dev, trs[j].fw, cmds[j])
  }

  /** The phase names the last command that was accepted, and the token imported is the one that the last accepted
      import or scan brought. */
  lemma {:induction false} PhaseIsLastAccepted<P(!new)>(dev: Device<P>, cmds: seq<Command>, trs: seq<Track<P>>, n: nat,
                                                        k: nat)
    requires IsRun(dev, cmds, trs) && n <= |cmds| && LastAccepted(dev, cmds, trs, n, k)
    ensures trs[n].fw.phase == PhaseOf(cmds[k])
    ensures cmds[k].CmdImport? ==> trs[n].fw.imported == Token.DecodeToken(dev.lib, cmds[k].payload)
    ensures cmds[k].CmdScan? ==> trs[n].fw.imported == Some(cmds[k].token)
    decreases n
  {
    hide Token.DecodeToken, Chosen, ProofAt, AllProofs, SwapInv, Allowed;
    SwapStateInvariant(dev, cmds, trs, n - 1);
    InvMatches(dev, trs[n - 1]);
    assert trs[(n - 1) + 1] == Step(dev, trs[n - 1], cmds[n - 1]);
    if k < n - 1 {
      assert !Accepts(dev, trs[n - 1].fw, cmds[n - 1]);
      PhaseIsLastAccepted(dev, cmds, trs, n - 1, k);
    }
  }

  // ---- What the ready proofs are worth ----

  // The device's curve calls are those of a prime-order group, and an accepted DLEQ proof means what NUT-12
  // says: the same private scalar is behind the key and the signature.
  ghost predicate OnCurve<P(!new)>(dev: Device<P>, g: BlindSignatures.Curve<P, Bytes>, num: Bytes -> nat, k: nat)
  {
    && g.PrimeOrder() && g.IsScalar(k) && dev.pinned == Some(g.PublicKeyOf(k))
    && (forall b :: IsScalar(dev.lib, b) ==> g.IsScalar(num(b)))
    && (forall x, r :: dev.blind(x, r) == g.Blind(x, num(r)))
    && (forall c, r, key :: dev.unblind(c, r, key) == g.Unblind(c, num(r), key))
    && (forall b, c, e, s :: dev.verifyDleq(b, c, e, s, g.PublicKeyOf(k)) ==> c == g.Sign(k, b))
  }

  /** Every proof the device holds, in any reachable state, is a valid signature of the pinned mint on its own
      secret: the private-key verifier accepts it. */
  lemma ReadyProofsVerify<P(!new)>(dev: Device<P>, g: BlindSignatures.Curve<P, Bytes>, num: Bytes -> nat, k: nat,
                                   tr: Track<P>, i: nat)
    requires OnCurve(dev, g, num, k) && SwapInv(dev, tr) && tr.fw.proofs.Some? && i < |tr.fw.proofs.value|
    ensures var p := tr.fw.proofs.value[i];
            g.hash(p.secret).Some? && p.c == dev.pointBytes(g.Mul(k, g.hash(p.secret).value))
            && g.VerifyWithPrivkey(p.secret, g.Mul(k, g.hash(p.secret).value), k) == Some(true)
  {
    hide Imported, InOrderIn, PendingOk, BlindSignatures.Curve.PrimeOrder, BlindSignatures.Curve.Mul,
         BlindSignatures.Curve.Blind, BlindSignatures.Curve.Unblind;
    var p, key := tr.fw.proofs.value[i], g.PublicKeyOf(k);
    assert Checked(dev, key, p);
    var d := p.dleq.value;
    var b: P, c: P, u: P :| dev.blind(p.secret, d.r) == Some(b) && dev.verifyDleq(b, c, d.e, d.s, key)
                            && dev.unblind(c, d.r, key) == Some(u) && p.c == dev.pointBytes(u);
    assert IsScalar(dev.lib, d.r);
    assert c == g.Sign(k, b);
    g.BlindSignUnblind(p.secret, num(d.r), k);
  }

  // ---- What is exported can be read back ----

  lemma ReadyProofIsTyped<P(!new)>(dev: Device<P>, tr: Track<P>, i: nat)
    requires ProofsOk(dev, tr) && tr.fw.proofs.Some? && i < |tr.fw.proofs.value|
    ensures Token.ProofTyped(dev.lib, tr.fw.proofs.value[i])
  {
    hide AllProofs, Token.HexDecode, Token.IdsCanonical, Utf8, Token.CanonicalId;
    var ps := tr.fw.proofs.value;
    var all := AllProofs(tr.origin.value.groups);
    var at: seq<nat> :| PicksOut(at, SecretsOf(ps), AmountsOf(ps), all);
    AllProofsTyped(dev.lib, tr.origin.value.groups, at[i]);
    assert all[at[i]].secret == SecretsOf(ps)[i] == ps[i].secret;
    assert all[at[i]].amount == AmountsOf(ps)[i] == ps[i].amount;
  }

  lemma {:induction false} AllProofsTyped(lib: Token.Lib, groups: seq<Token.Group>, k: nat)
    requires k < |AllProofs(groups)| && forall i :: 0 <= i < |groups| ==> Token.GroupTyped(lib, groups[i])
    ensures Token.ProofTyped(lib, AllProofs(groups)[k])
  {
    hide Token.ProofTyped;
    var front := groups[..|groups| - 1];
    if k < |AllProofs(front)| {
      AllProofsTyped(lib, front, k);
    } else {
      assert Token.GroupTyped(lib, groups[|groups| - 1]);
    }
  }

  lemma MemoIsUtf8()
    ensures Utf8(EXPORT_MEMO)
  {
    hide Utf8;
    Ascii(EXPORT_MEMO);
  }

  lemma {:induction false} Ascii(b: Bytes)
    requires forall i :: 0 <= i < |b| ==> b[i] < 0x80
    ensures Utf8(b)
  {
    if b == [] {
    } else {
      assert b[0] < 0x80;
      Ascii(b[1..]);
    }
  }

  // The bytes of an ASCII text.
  predicate IsText(b: Bytes, text: string)
  {
    |b| == |text| && forall i :: 0 <= i < |b| ==> b[i] == text[i] as int
  }

  lemma MemoIsText()
    ensures IsText(EXPORT_MEMO, "Swapped via Micronuts")
  {
  }

  /** The token exported from any reachable state can be written, and reads back as itself in both wire forms. */
  lemma ExportReadsBack<P(!new)>(dev: Device<P>, tr: Track<P>)
    requires SwapInv(dev, tr) && BuildExportToken(tr.fw).Some? && |tr.fw.proofs.value| < U64_LIMIT
    ensures var t := BuildExportToken(tr.fw).value;
            && AllProofs(t.groups) == tr.fw.proofs.value
            && t.mint == tr.fw.imported.value.mint && t.unit == tr.fw.imported.value.unit
            && t.groups == [Token.Group(tr.fw.proofs.value[0].keysetId, tr.fw.proofs.value)]
            && t.memo.Some? && IsText(t.memo.value, "Swapped via Micronuts")
            && Token.TokenTyped(dev.lib, t) && Token.EncodeToken(dev.lib, t).Some?
            && Token.DecodeToken(dev.lib, Token.EncodeToken(dev.lib, t).value) == Some(t)
            && Token.DecodeToken(dev.lib, Token.EncodeTokenWire(dev.lib, t).value) == Some(t)
  {
    hide Checked, InOrderIn, PendingOk, Utf8, Token.PutToken, Token.HexDecode, Token.HexEncode, Token.ProofTyped,
         Token.EncodeTokenWire, Token.DecodeToken;
    var t, ps := BuildExportToken(tr.fw).value, tr.fw.proofs.value;
    MemoIsUtf8();
    MemoIsText();
    hide IsText;
    forall i | 0 <= i < |ps| ensures Token.ProofTyped(dev.lib, ps[i]) {
      ReadyProofIsTyped(dev, tr, i);
    }
    assert t.groups == [Token.Group(ps[0].keysetId, ps)];
    assert AllProofs(t.groups) == ps by {
      assert t.groups[..0] == [];
      assert AllProofs([]) == [];
    }
    assert Token.GroupTyped(dev.lib, t.groups[0]);
    Token.WireRoundTrip(dev.lib, t);
    Token.NormalIff(t);
  }
}
