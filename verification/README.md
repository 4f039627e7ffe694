# Verified core of Micronuts

Dafny models, with proofs, of six parts of Micronuts, a Cashu ecash wallet and mint for small devices.

| files | what they model |
|---|---|
| `Wallet`, `PersistentWallet`, `WalletRuns`, `WalletRecovery`, `WalletRestores`, `WalletValue`, `WalletCurve`, `Ecash`, `Denominations` | the persistent wallet: mint, swap, melt, spend, restore, and what survives crashes |
| `ExactSearch`, `SearchGivesUp`, `CoinHands`, `Selection`, `Amounts` | its exact-subset search and its largest-first selection |
| `Envelope` (modules `Crc` and `Envelope`) | its checksummed blob |
| `Frag` | segmentation and reassembly of datagrams |
| `UsbProtocol` | the USB frame protocol |
| `Base64Url`, `Cbor`, `Token` | the V4 token codec of NUT-00 |
| `Utf8Format`, `CborFormat`, `TokenFormat` | its format in literal bytes: a grammar that the decoder is proved against, and the encoder's layout |
| `BlindSignatures`, `SwapDevice`, `SwapRuns`, `SwapWire` | the blind-signature algebra, and the swap state machine of the device on top of it |
| `Adapter`, `AdapterRuns` | the concurrency of the HTTP adapter in front of the mint process |

`Basics` holds `Option`, `Result` and the byte type. `dafny verify dfyconfig.toml` checks everything.

Code that updates an object is a class (`Reassembler`, `FrameDecoder`, `PersistentWallet`, `Firmware`) or a method with
a loop, proved against a function of the old state; the properties of whole runs are lemmas about those functions.
What lies outside (the mint's answers, how a save ends, random bytes, the curve, key derivation, the general CBOR item
skipper) is a parameter, so that every lemma holds for every behaviour of it that the stated assumptions admit.

## Main results

- **Reassembly.** Over arbitrary traffic the receiver's answer is a function of the datagrams it was handed:
  accepted if and only if they close an unbroken chain that fits (`Frag.PushFromHistory`). From this follow safety on a
  lossy, duplicating, reordering network (`Frag.LossyNetworkSafety`) and delivery from any reachable state
  (`Frag.DeliveryFromAnyState`).
- **Exact search.** Sound; complete below the node cap, and always when the amounts allow at most 100000 different
  hands of coins, equal coins not being told apart; never more than n(n-1)/2 nodes past the cap
  (`ExactSearch.FindExact`).
- **Recovery.** In every run with crashes, lost answers and failed saves, no output is requested that the mint has
  already signed (`WalletRecovery.NoOutputIsRequestedTwice`), provided that after a crash a keyset is restored before
  it is used, by a restore that is not refused, that the mint answers completely, and that has every signed index
  within its headroom. What one restore does to the counter is stated exactly for any wallet
  (`WalletRestores.RestoreSafeIff`); repeated restores recover everything if and only if no gap between the signed
  indices not held is wider than the headroom (`WalletRestores.RepeatedRestoresRecoverIff`).
- **Verification.** In every run everything held carries a DLEQ proof that holds under a listed key
  (`WalletRuns.OnlyVerifiedProofsHeld`), and is a valid signature if those proofs mean what NUT-12 says
  (`WalletRuns.OnlySignaturesHeld`). An honest mint is always credited (`WalletCurve.HonestRequestIsCredited`), and
  restoring gives the very state a lost request would have given (`WalletCurve.LostRequestIsRestored`).
- **Tokens.** The decoder accepts exactly what a grammar in literal bytes gives a meaning, with that meaning
  (`TokenFormat.DecodeTokenIff`). Every token accepted from any byte string is a fixed point of both wire forms
  (`Token.AcceptedTokensAreFixedPoints`).
- **Checksum.** The bitwise loop computes the complemented polynomial remainder of ITU-T V.42
  (`Crc.ChecksumIsRemainder`); any burst of up to 32 bits, in a body of any length, is caught (`Envelope.BurstCaught`).
- **USB frames.** The byte-at-a-time decoder refines a parser of the whole buffer
  (`UsbProtocol.FrameDecoder.Decode`); a session delivers exactly the frames of the bytes it keeps
  (`UsbProtocol.SessionDeliversKept`), and all frames of the stream if and only if no call drops a frame or the
  beginning of one (`UsbProtocol.DeliversStreamIff`).
- **Swap device.** After every command sequence the ready proofs passed the pinned-key check, come in order from the
  token they were blinded from (`SwapRuns.SwapStateInvariant`) and are valid signatures (`SwapRuns.ReadyProofsVerify`).
  Which payloads are accepted is stated byte for byte (`SwapWire.SendSignaturesIff`).
- **Adapter.** In every interleaving a reply is the mint's answer to that very call (`AdapterRuns.EveryReplyIsOwn`), and
  one cache key has one body (`AdapterRuns.OneBodyPerKey`); once it is cached the mint is not asked again
  (`AdapterRuns.RepeatedPostIsServed`).

## Where the code and its documentation disagree

The model follows the code. Each difference is a lemma.

- `frag.rs:25-26` says that every error drops the message in flight; a truncated header leaves it alone
  (`Frag.TruncatedLeavesOpen`; exact condition `Frag.ErrorDropsIff`).
- `token.rs:23-24` says that invalid characters give `None`; a lone character after the last full group is dropped
  unread (`Base64Url.LoneCharacterIgnored`, exact condition `Base64Url.DecodeFailsIff`).
- `persistent.rs:251-252` says that `None` means no combination exists; on a purse of 100002 coins, two of which are
  worth the amount, the search gives up (`SearchGivesUp.NoneIsWrongPastTheCap`). Beforehand, a caller can tell that
  `None` will be right when the amounts allow at most 100000 hands (`ExactSearch.WithinCap`); past the cap, whether it
  is right is the subset-sum question itself.
- `spend` removes by value: when a proof of value is held twice, some spend hands out one copy and loses the others
  (`WalletValue.DuplicateIsLost`). Every spend conserves if and only if no proof of value is held twice
  (`WalletValue.SpendConservesIff`). Secrets stay distinct in every run whose callers hand in new proofs
  (`WalletRecovery.SecretsStayDistinct`).
- `persistent.rs:55-58` says that the headroom covers the crash window. It covers a lost request if and only if at most
  64 outputs were asked for (`WalletRestores.LostRequestSafeIff`): always for a mint or melt
  (`WalletRecovery.OneLostRequestIsCovered`), not for a swap of 65 (`WalletRecovery.SixtyFiveLostOutputsEscape`).
- Restoring skips secrets already held, so an index handed in at or above the counter stays there and is asked for again
  (`WalletRestores.HeldIndexIsRequestedAgain`; exact condition `WalletRestores.RestoreSafeIff`).
- The counter saturates at 2^32 - 1, after which the same output is asked for again and again
  (`WalletRecovery.ExhaustedCounterRepeats`; exact condition `WalletRecovery.AskingMovesPastIff`).
- `persistent.rs:23-24` says that a wallet whose blob was lost is fully recoverable by restoring. One restore is enough
  if and only if no index beyond the headroom was signed (`WalletRestores.LostStoreSafeIffFewSigned`); restoring until
  nothing is added is enough if and only if no gap between signed indices is wider than the headroom
  (`WalletRestores.LostStoreRecoversIff`; a run with such a gap `WalletRestores.SkippedIndicesHideTheRest`).
- A USB chunk that holds two frames loses the second (`UsbProtocol.SecondFrameInChunkIsLost`; exact condition for one
  call `UsbProtocol.CallDeliversIff`, for a session `UsbProtocol.DeliversStreamIff`).
- `main.rs:107` promises a matched response. One client that leaves after its request was written leaves a stale reply
  in the pipe for good: from then on no call returns `Ok` (`AdapterRuns.NextCallIsRefused`; exact condition
  `AdapterRuns.OneAbandonedCallBlocksAllLater`). What keeps
  replies apart is not that few replies are outstanding but that few ids were taken since the oldest one was asked for,
  also by calls that wrote nothing (`AdapterRuns.StaleReplyTakenAfterWrap`; exact condition `AdapterRuns.OkIsOwnIff`).

## Model

| member | source | states |
|---|---|---|
| Frag.SegmentCount | micronuts-fips-responder/src/frag.rs:38-42 | the least number of segments, at least one, that holds the frame |
| Frag.ForEachSegment | micronuts-fips-responder/src/frag.rs:50-78 | the loop emits exactly the specified segments, each within the mtu |
| Frag.SegmentLayout | micronuts-fips-responder/src/frag.rs:50-78 | a segment in literal bytes: message id, index with the top bit on the last, its part of the frame |
| Frag.SegmentsReadAsPieces | micronuts-fips-responder/src/frag.rs:50-78 | what the sender emits is read by the receiver as the consecutive pieces of the frame |
| Frag.Reassembler.constructor | micronuts-fips-responder/src/frag.rs:96-104 | a new receiver is idle with an empty buffer of N bytes |
| Frag.Reassembler.PushSegment | micronuts-fips-responder/src/frag.rs:109-147 | the in-place update and its answer are one step of the specification |
| Frag.StateFromHistory | micronuts-fips-responder/src/frag.rs:86-147 | in every reachable state the private fields are determined by the traffic |
| Frag.PushFromHistory | micronuts-fips-responder/src/frag.rs:109-147 | a datagram is accepted iff it extends an unbroken chain that fits; a frame is completed iff it also closes it, and is then the chain's payload |
| Frag.ErrorDropsIff | micronuts-fips-responder/src/frag.rs:109-136 | after any traffic an error drops the message in flight iff the datagram has a header or no message was open; a shorter one is reported and changes nothing |
| Frag.TruncatedLeavesOpen | micronuts-fips-responder/src/frag.rs:110-112 | a message whose first segment is followed by such a datagram stays open, and its last segment completes it |
| Frag.NextIndexNeverWraps | micronuts-fips-responder/src/frag.rs:119-139 | an open message expects an index from 1 to 128, and its data fits the buffer |
| Frag.LossyNetworkSafety | micronuts-fips-responder/src/frag.rs:50-147 | under loss, duplication, reordering and truncation a completed frame is the frame sent under that message id |
| Frag.DeliveryFromAnyState | micronuts-fips-responder/src/frag.rs:38-147 | from any reachable state the segments of a frame give none, none, ..., frame, iff it fits the buffer |
| ExactSearch.SuffixSums | cashu-core-lite/src/persistent.rs:267-272 | each entry is the suffix sum, capped at the 64-bit maximum |
| ExactSearch.Dfs | cashu-core-lite/src/persistent.rs:279-314 | the search with its mutable list and counter computes the specified result and count |
| ExactSearch.SearchSound | cashu-core-lite/src/persistent.rs:279-314 | a hit is an ascending choice of positions with exactly the sum asked for |
| ExactSearch.SearchComplete | cashu-core-lite/src/persistent.rs:279-314 | a miss below the cap means that no choice has the sum: neither pruning nor the equal-coin skip loses one |
| ExactSearch.SearchBound | cashu-core-lite/src/persistent.rs:277-314 | at most n(n-1)/2 nodes past the cap; nothing is counted once a call starts at the cap |
| ExactSearch.TriangleIs | cashu-core-lite/src/persistent.rs:277-314 | the overshoot bound is n(n-1)/2 |
| ExactSearch.CounterFits | cashu-core-lite/src/persistent.rs:277-318 | the work bound fits the 32-bit node counter iff there are at most 92681 proofs |
| ExactSearch.SearchCountsHands | cashu-core-lite/src/persistent.rs:279-314 | each non-empty hand of coins is counted at most once, equal coins not being told apart |
| CoinHands.SortedHands | cashu-core-lite/src/persistent.rs:263-314 | along the sorted amounts, the hands number the product over the distinct amounts of multiplicity plus one |
| ExactSearch.SixteenProofsAreWithinCap | cashu-core-lite/src/persistent.rs:277-318 | sixteen proofs of any amounts never meet the cap |
| ExactSearch.Solve | cashu-core-lite/src/persistent.rs:267-320 | soundness, completeness and work bound for sorted amounts |
| ExactSearch.FindExact | cashu-core-lite/src/persistent.rs:255-330 | a hit lists distinct stored proofs worth exactly the amount; a miss below the cap, or over amounts with at most 100000 hands, means that no set of them is |
| SearchGivesUp.NoneIsWrongPastTheCap | cashu-core-lite/src/persistent.rs:274-318 | a purse that holds the amount exactly on which the search ends without a pick, two nodes past the cap |
| PersistentWallets.PersistentWallet.FindExact | cashu-core-lite/src/persistent.rs:255-330 | a hit is a sub-multiset of the stored proofs worth the amount |
| Selection.SelectForSpend | cashu-core-lite/src/persistent.rs:345-356 | the loop of spend selects the shortest covering prefix of the descending order |
| Selection.SelectCovering | cashu-core-lite/src/persistent.rs:466-485 | the take_while of a melt selects the same proofs |
| Selection.NeededIsLeast | cashu-core-lite/src/persistent.rs:345-356 | the prefix covers the amount and no shorter one does |
| Selection.LargestIsOptimal | cashu-core-lite/src/persistent.rs:340-358 | the selection covers the amount, and no set of stored proofs covers it with fewer |
| Denominations.DecomposeAmount | cashu-core-lite/src/nuts/nut00.rs:100-122 | the two loops give the binary split, largest first |
| Denominations.DecomposedSums | cashu-core-lite/src/nuts/nut00.rs:100-122 | the split adds up to the amount, has at most 64 parts, and is empty iff the amount is zero |
| Denominations.DecomposedIsBinary | cashu-core-lite/src/nuts/nut00.rs:100-122 | the parts are powers of two, each at most once, largest first: the binary digits of the amount |
| Crc.AbsorbByte | cashu-core-lite/src/persistent.rs:95-99 | eight shifts absorb one byte |
| Crc.Crc32 | cashu-core-lite/src/persistent.rs:92-102 | the bitwise loop computes the checksum |
| Crc.SerialIsRemainder | cashu-core-lite/src/persistent.rs:95-99 | the register fed bit by bit performs schoolbook division by the generator polynomial |
| Crc.ChecksumIsRemainder | cashu-core-lite/src/persistent.rs:89-102 | the loop's checksum is the one of section 8.1.1.6.2 of ITU-T V.42: the complemented remainder of the body times x^32 plus 32 ones in front |
| Crc.ShiftInjective | cashu-core-lite/src/persistent.rs:96-99 | one turn of the inner loop is injective on 32-bit words |
| Crc.SerialIsWord | cashu-core-lite/src/persistent.rs:95-99 | feeding up to 32 bits one by one is feeding them as one word |
| Crc.BurstChangesRegister | cashu-core-lite/src/persistent.rs:92-102 | a change inside 32 bits changes the register, whatever surrounds it |
| Crc.BurstDetected | cashu-core-lite/src/persistent.rs:92-102 | bodies that differ only inside 32 consecutive bits have different checksums |
| Crc.WindowDetected | cashu-core-lite/src/persistent.rs:92-102 | so do bodies that differ only inside four consecutive bytes |
| Envelope.BlobLayout | cashu-core-lite/src/persistent.rs:104-122 | what is saved in literal bytes: "CCL1", the checksum lowest byte first, the body of version 1 |
| Envelope.DecodeIff | cashu-core-lite/src/persistent.rs:126-140 | exactly which bytes load and as what: that header, and a body that decodes as version 1 of this seed |
| Envelope.RoundTrip | cashu-core-lite/src/persistent.rs:104-140 | a saved blob loads back under its own seed and as nothing under another |
| Envelope.HeaderCorruptionCaught | cashu-core-lite/src/persistent.rs:126-134 | any change of magic or checksum is caught |
| Envelope.BurstCaught | cashu-core-lite/src/persistent.rs:126-134 | any change inside 32 consecutive bits of the body is caught |
| Envelope.WindowCorruptionCaught | cashu-core-lite/src/persistent.rs:126-134 | any change inside four consecutive bytes of the body is caught |
| Envelope.ByteCorruptionCaught | cashu-core-lite/src/persistent.rs:126-134 | any change of one byte of the blob, header or body, is caught |
| UsbProtocol.ToByte | micronuts-app/src/protocol.rs:7-41 | every command byte reads back as its command |
| UsbProtocol.CommandBytes | micronuts-app/src/protocol.rs:7-41 | the command bytes in full |
| UsbProtocol.WireLayout | micronuts-app/src/protocol.rs:96-106 | a frame in literal bytes, length high byte first |
| UsbProtocol.ParseRules | micronuts-app/src/protocol.rs:195-257 | what is skipped, taken and kept waiting, in literal bytes |
| UsbProtocol.Encode | micronuts-app/src/protocol.rs:96-106 | writes the frame and nothing else, or nothing if the buffer is too small |
| UsbProtocol.FrameDecoder.constructor | micronuts-app/src/protocol.rs:178-186 | a new decoder has no pending bytes |
| UsbProtocol.FrameDecoder.Reset | micronuts-app/src/protocol.rs:188-193 | resetting forgets the pending bytes |
| UsbProtocol.FrameDecoder.Take | micronuts-app/src/protocol.rs:197-254 | one byte moves the decoder as the whole-buffer parser says, with the payload index below the length |
| UsbProtocol.FrameDecoder.Decode | micronuts-app/src/protocol.rs:195-257 | from any state and for any chunk: the first valid frame of pending bytes plus chunk, or the new pending bytes |
| UsbProtocol.FrameDecoder.PendingIsPartial | micronuts-app/src/protocol.rs:168-193 | pending bytes never hold a complete frame |
| UsbProtocol.ParseContinues | micronuts-app/src/protocol.rs:195-257 | cutting a chunk anywhere before the end of the first frame changes nothing |
| UsbProtocol.WireRoundTrip | micronuts-app/src/protocol.rs:96-257 | an encoded frame is read back, whatever follows |
| UsbProtocol.SessionDeliversKept | micronuts-app/src/protocol.rs:195-257 | however the stream is cut, the calls return exactly the frames of the bytes not dropped |
| UsbProtocol.CallDeliversIff | micronuts-app/src/protocol.rs:195-257 | one call delivers every frame of its bytes iff what it drops holds no frame and no beginning of one |
| UsbProtocol.DeliversStreamIff | micronuts-app/src/protocol.rs:195-257 | after every call all frames of the stream so far have been delivered iff no call drops a frame or the beginning of one |
| UsbProtocol.SessionDeliversStream | micronuts-app/src/protocol.rs:195-257 | then the session returns the frames of the whole stream |
| UsbProtocol.OneFrameInChunks | micronuts-app/src/protocol.rs:195-257 | one frame, cut in any way, is delivered exactly once |
| UsbProtocol.SecondFrameInChunkIsLost | micronuts-app/src/protocol.rs:227-251 | of two frames in one chunk the second is lost |
| Base64Url.EncodeBytes | cashu-core-lite/src/token.rs:366-386 | the chunk loop computes the encoding |
| Base64Url.EncodeOne | cashu-core-lite/src/token.rs:370-383 | one chunk of one to three bytes, through the 24-bit number of the source |
| Base64Url.EncodeIsSixBits | cashu-core-lite/src/token.rs:366-386 | the encoding is that of section 5 of RFC 4648: six bits a character of the url-safe alphabet, zero-padded |
| Base64Url.DecodeChars | cashu-core-lite/src/token.rs:25-105 | the table-driven loop with its early returns computes the decoding |
| Base64Url.RoundTrip | cashu-core-lite/src/token.rs:25-386 | decoding undoes encoding for every byte string |
| Base64Url.PaddingIgnored | cashu-core-lite/src/token.rs:50-54 | any number of appended `=` changes nothing |
| Base64Url.AlphabetsAgree | cashu-core-lite/src/token.rs:43-46 | the standard alphabet decodes like the url-safe one |
| Base64Url.DecodeFailsIff | cashu-core-lite/src/token.rs:68-102 | decoding fails iff a character that is looked at is in neither alphabet |
| Base64Url.LoneCharacterIgnored | cashu-core-lite/src/token.rs:84-104 | a lone character after the full groups is dropped, valid or not |
| Cbor.ForeachKeyLoop | cashu-core-lite/src/token.rs:270-292 | both loop forms compute the fold over the entries |
| Cbor.ArrayLoop | cashu-core-lite/src/token.rs:294-315 | both loop forms compute the list of elements |
| Cbor.ForeachKeyKeeps | cashu-core-lite/src/token.rs:270-292 | what every entry handler keeps, the whole map keeps |
| Cbor.ArrayKeeps | cashu-core-lite/src/token.rs:294-315 | what holds of every decoded element holds of all |
| CborFormat.HeadIsShortest | cashu-core-lite/src/token.rs:123-141 | a written head is one of section 3 of RFC 8949, and no shorter one says the same |
| CborFormat.ForeachKeyIff | cashu-core-lite/src/token.rs:270-292 | the loop accepts exactly the maps, counted or ended by 0xFF, whose entries mean something in turn |
| CborFormat.ArrayIff | cashu-core-lite/src/token.rs:294-315 | the loop accepts exactly the arrays, counted or ended by 0xFF, of elements in that form |
| Utf8Format.Utf8Iff | cashu-core-lite/src/token.rs:151-155 | text is exactly what encodes a sequence of Unicode scalar values |
| TokenFormat.DecodeDleqIff | cashu-core-lite/src/nuts/nut12.rs:142-185 | a DLEQ triple is read exactly from a map with "e", "s", "r" in any order, unknown keys skipped |
| TokenFormat.DecodeProofIff | cashu-core-lite/src/token.rs:143-169 | a proof is read exactly from a map with "a", "s", "c" and perhaps "d" |
| TokenFormat.DecodeGroupIff | cashu-core-lite/src/token.rs:192-213 | a group is read exactly from a map with "i" and "p"; every proof gets its id in hex |
| TokenFormat.DecodeBodyIff | cashu-core-lite/src/token.rs:245-268 | a body is read exactly as the grammar says: "m", "u", "t" and perhaps "d" |
| TokenFormat.DecodeTokenIff | cashu-core-lite/src/token.rs:331-349 | what any bytes decode to, with "cashuB", "crawB" or no prefix: base64url of a body first, a raw body otherwise |
| TokenFormat.DleqLayout | cashu-core-lite/src/nuts/nut12.rs:125-140 | the bytes of a written DLEQ triple |
| TokenFormat.ProofLayout | cashu-core-lite/src/token.rs:123-141 | the bytes of a written proof |
| TokenFormat.GroupLayout | cashu-core-lite/src/token.rs:176-190 | the bytes of a written group |
| TokenFormat.TokenLayout | cashu-core-lite/src/token.rs:224-362 | the bytes of a written token and of its wire form |
| Token.BodyRead | cashu-core-lite/src/token.rs:123-268 | a written body decodes to the normal form of the token |
| Token.WireRoundTrip | cashu-core-lite/src/token.rs:331-386 | both wire forms decode to the normal form; the raw form is never taken for base64 |
| Token.BodyDecodesNormal | cashu-core-lite/src/token.rs:143-268 | every accepted body gives a token that can be written and is in normal form |
| Token.AcceptedTokensAreFixedPoints | cashu-core-lite/src/token.rs:123-386 | every token accepted from any bytes is given back by both wire forms |
| Token.ReadsBackIffNormal | cashu-core-lite/src/token.rs:123-362 | a writable token comes back unchanged iff its keyset ids are lower-case hex, repeated on every proof |
| Ecash.KeyFor | cashu-core-lite/src/wallet.rs:263-268 | the first key listed for the denomination, or none is listed |
| Ecash.UnblindToProofs | cashu-core-lite/src/wallet.rs:247-292 | counts must match; then position by position, the first failure deciding |
| BlindSignatures.Curve.OnlyZeroVanishes | cashu-core-lite/src/crypto.rs:118-123 | in a group of prime order a non-zero scalar kills only the identity |
| BlindSignatures.Curve.SignNeverFails | cashu-core-lite/src/crypto.rs:118-123 | signing never reaches its `expect` |
| BlindSignatures.Curve.BlindSignUnblind | cashu-core-lite/src/crypto.rs:69-148 | blind, sign, unblind gives k times the hashed secret, the one point the private-key verifier accepts |
| BlindSignatures.UnblindedBatchVerifies | cashu-core-lite/src/wallet.rs:247-292 | honest signatures become proofs that verify, with their own secret and denomination, at every position |
| PersistentWallets.PersistentWallet.constructor | cashu-core-lite/src/persistent.rs:179-190 | loads the stored counter and proofs; a missing, corrupt or foreign blob starts empty |
| PersistentWallets.PersistentWallet.Open | cashu-core-lite/src/persistent.rs:172-191 | an error of the store's load is passed on; anything it returns is loaded |
| PersistentWallets.PersistentWallet.SaveBlob | cashu-core-lite/src/persistent.rs:702-705 | the store holds the old blob or the new one |
| PersistentWallets.PersistentWallet.VerifyFresh | cashu-core-lite/src/persistent.rs:499-527 | passes iff every proof carries a DLEQ that verifies under the first key listed for its amount; otherwise the first fault decides the error |
| Wallet.VerifiedIffChecked | cashu-core-lite/src/persistent.rs:504-524 | the test of one proof, said of the key list |
| PersistentWallets.PersistentWallet.DeterministicOutputs | cashu-core-lite/src/persistent.rs:669-700 | output i comes from index counter + i, in 32-bit arithmetic |
| PersistentWallets.PersistentWallet.MintDeterministic | cashu-core-lite/src/persistent.rs:216-245 | the method is the specified transition, for every answer and every end of the save |
| PersistentWallets.PersistentWallet.SwapDeterministic | cashu-core-lite/src/persistent.rs:540-565 | likewise for a swap |
| PersistentWallets.PersistentWallet.SpendProofs | cashu-core-lite/src/persistent.rs:336-361 | likewise for a spend |
| PersistentWallets.PersistentWallet.AddProofs | cashu-core-lite/src/persistent.rs:569-572 | likewise for handing in proofs (and undo_spend) |
| PersistentWallets.PersistentWallet.RemoveProofs | cashu-core-lite/src/persistent.rs:577-580 | likewise for removing proofs |
| PersistentWallets.PersistentWallet.CollectChange | cashu-core-lite/src/persistent.rs:420-448 | change signatures are matched to blanks by position, under the keys of the mint's denominations |
| PersistentWallets.PersistentWallet.MeltDeterministic | cashu-core-lite/src/persistent.rs:372-463 | the method is the specified transition: inputs leave only when paid and when all change verifies |
| PersistentWallets.PersistentWallet.CollectRestored | cashu-core-lite/src/persistent.rs:618-655 | skips what was not asked for and what is known, and finds the next counter |
| PersistentWallets.PersistentWallet.RestoreFromMint | cashu-core-lite/src/persistent.rs:587-667 | the method is the specified transition |
| WalletRuns.StoreFollowsMemory | cashu-core-lite/src/persistent.rs:702-705 | after any operation the store reads as before or as the memory now |
| WalletRuns.AcknowledgedIsDurable | cashu-core-lite/src/persistent.rs:172-705 | after any operation that reported success, a crash and reload give back counter and proofs unchanged |
| WalletRuns.ProofsComeFrom | cashu-core-lite/src/persistent.rs:237-665 | every proof held was held before, has a DLEQ that holds under this operation's keys, or was handed in |
| WalletRuns.OnlyVerifiedProofsHeld | cashu-core-lite/src/persistent.rs:172-705 | in every run with crashes every proof in memory and store has a DLEQ that holds under a key listed for its amount |
| WalletRuns.OnlySignaturesHeld | cashu-core-lite/src/persistent.rs:172-705 | and so is a valid signature under the key of its amount, if accepted DLEQ proofs are sound |
| WalletRuns.RefusalKeepsProofs | cashu-core-lite/src/persistent.rs:216-665 | a mint, swap, melt or restore refused before its final save keeps both proof lists |
| WalletCurve.HonestRequestIsCredited | cashu-core-lite/src/persistent.rs:216-565 | honest signatures whose DLEQ proofs hold are credited: proof i is the signature on the secret of index counter + i, with that output's blinder |
| WalletCurve.HonestMintSucceeds | cashu-core-lite/src/persistent.rs:216-245 | such a mint returns the amount and credits exactly it |
| WalletCurve.HonestChangeIsKept | cashu-core-lite/src/persistent.rs:408-463 | honest change i becomes the proof of blank i, of the amount the mint chose |
| WalletCurve.HonestRestoreSucceeds | cashu-core-lite/src/persistent.rs:587-667 | an honest restore is not refused, and all it adds are the signatures on the secrets asked about, each with its own blinder and amount |
| WalletCurve.LostRequestIsRestored | cashu-core-lite/src/persistent.rs:587-667 | restoring with the signatures of a lost request gives the counter, proofs and store that the request would have given |
| WalletRecovery.SecretsStayDistinct | cashu-core-lite/src/persistent.rs:587-667 | in every run no secret is held twice and every held index is below the counter, even if the mint repeats outputs |
| WalletRecovery.ScanGives | cashu-core-lite/src/persistent.rs:618-655 | a restore adds distinct, new, in-range secrets and misses none that was answered |
| WalletRecovery.RestoreRecovers | cashu-core-lite/src/persistent.rs:587-667 | every signed output in range is held afterwards, and below the counter unless it was held before |
| WalletRecovery.RestoreSafeIffInHeadroom | cashu-core-lite/src/persistent.rs:587-667 | if no signed index is held at or above the counter: every signed index is below the new counter iff every one was below the old counter plus 64 |
| WalletRecovery.NoOutputIsRequestedTwice | cashu-core-lite/src/persistent.rs:172-705 | in every disciplined run no already signed output is requested |
| WalletRecovery.UnsavedWithinHeadroom | cashu-core-lite/src/persistent.rs:58-58 | an unsaved counter advance of at most 64 at a crash is in range of the next restore |
| WalletRestores.LostRequestSafeIff | cashu-core-lite/src/persistent.rs:216-667 | from any saved orderly wallet: after a request whose answer and save are lost, a crash and a complete restore make the counter safe iff at most 64 outputs were asked for |
| WalletRecovery.OneLostRequestIsCovered | cashu-core-lite/src/persistent.rs:216-400 | a mint or melt never asks for more, so its unsaved advance is within the headroom |
| WalletRecovery.SixtyFiveLostOutputsEscape | cashu-core-lite/src/persistent.rs:540-565 | one lost swap of 65 outputs does |
| WalletRecovery.RestoreKeepsDistinct | cashu-core-lite/src/persistent.rs:610-667 | whatever is held and answered, distinct secrets stay distinct |
| WalletRecovery.AskingMovesPastIff | cashu-core-lite/src/persistent.rs:228-229 | the indices asked for are left behind the counter iff they fit into 32 bits |
| WalletRecovery.ExhaustedCounterRepeats | cashu-core-lite/src/persistent.rs:550-551 | at the end of the range two one-output swaps ask for the same output |
| WalletRestores.RestoreAddsMissing | cashu-core-lite/src/persistent.rs:587-667 | whatever the wallet holds, an honest answer adds exactly the signed outputs in range that are not held, reports their number, and moves the counter past the highest of them |
| WalletRestores.RestoreSafeIff | cashu-core-lite/src/persistent.rs:618-660 | for any wallet: every signed index is below the new counter iff each was below the old one or has a signed, scanned, not held index at or above it |
| WalletRestores.HeldIndexIsRequestedAgain | cashu-core-lite/src/persistent.rs:624-660 | an index held at or above the counter, with no missing one as high, stays there, and a later swap asks for it again |
| WalletRestores.HandedInIndexIsHeldAbove | cashu-core-lite/src/persistent.rs:569-572 | one hand-in brings an empty wallet into that state |
| WalletRestores.RestoreTwice | cashu-core-lite/src/persistent.rs:587-667 | a second restore against an unchanged mint changes nothing |
| WalletRestores.LostStoreSafeIffFewSigned | cashu-core-lite/src/persistent.rs:178-181 | after a lost store one restore makes the counter safe iff no index beyond 64 was signed |
| WalletRestores.RepeatedRestoresRecoverIff | cashu-core-lite/src/persistent.rs:587-667 | for any wallet, when repeated restores add nothing more: every signed output is held iff, among those not held at the start, no gap between indices, nor from the counter, is wider than 64; every one is below the counter iff, besides, those held at the start are overtaken |
| WalletRestores.RestoresEnd | cashu-core-lite/src/persistent.rs:587-667 | there are at most as many restores that add something as there are signed outputs |
| WalletRestores.LostStoreRecoversIff | cashu-core-lite/src/persistent.rs:178-181 | after a lost store repeated restores recover everything iff no gap between signed indices, nor before the first, is wider than 64 |
| WalletRestores.SkippedIndicesHideTheRest | cashu-core-lite/src/persistent.rs:540-667 | a 65-output swap refused, one output signed at index 65, the store lost: every honest restore adds nothing and the output is not held |
| WalletValue.RemovalConservesIff | cashu-core-lite/src/persistent.rs:359-359 | removing by value splits the multiset iff every copy of a selected proof is selected |
| WalletValue.BalanceOfMultiset | cashu-core-lite/src/persistent.rs:194-196 | the balance depends on the multiset of proofs only |
| WalletValue.MintCredits | cashu-core-lite/src/persistent.rs:216-245 | a mint that finishes returns the amount and raises the balance by exactly it, keeping what was held |
| WalletValue.SwapCredits | cashu-core-lite/src/persistent.rs:540-565 | a swap that finishes returns and stores proofs of exactly the amounts asked for, in that order |
| WalletValue.SpendRefusedIff | cashu-core-lite/src/persistent.rs:336-343 | when a spend is refused, and why |
| WalletValue.RefusedUnasked | cashu-core-lite/src/persistent.rs:222-485 | when mint, swap and melt are refused before anything is asked |
| WalletValue.CreditRefusals | cashu-core-lite/src/persistent.rs:223-240 | how an undecodable id, an underivable index, an error or a short answer refuse a request |
| WalletValue.RemoveTakesOut | cashu-core-lite/src/persistent.rs:577-580 | removing takes every copy of the listed proofs and nothing else |
| WalletValue.SpendSplits | cashu-core-lite/src/persistent.rs:336-361 | if no proof of value is held twice, a spend splits the proofs exactly, covers the amount, and uses as few proofs as possible |
| WalletValue.DistinctIsEnough | cashu-core-lite/src/persistent.rs:359-359 | pairwise distinct proofs hold no proof of value twice |
| WalletValue.SpendConservesIff | cashu-core-lite/src/persistent.rs:336-361 | every spend within the balance splits the proofs exactly iff no proof of value is held twice |
| WalletValue.SpendThenUndo | cashu-core-lite/src/persistent.rs:336-491 | if no proof of value is held twice, undoing a spend restores the multiset; an orderly wallet stays orderly |
| WalletValue.MeltConserves | cashu-core-lite/src/persistent.rs:372-463 | if no proof of value is held twice: unpaid keeps the proofs; paid: new balance + inputs = old balance + change, and the inputs cover invoice and fee |
| WalletValue.DuplicateIsLost | cashu-core-lite/src/persistent.rs:336-361 | in any wallet that holds a proof of value twice, some spend hands out one copy and keeps none |
| SwapDevice.Firmware.constructor | micronuts-app/src/state.rs:15-31 | the device starts idle, with nothing imported, pending or ready |
| SwapDevice.Firmware.HandleImport | micronuts-app/src/command_handler.rs:26-38 | imports what decodes, changes nothing otherwise |
| SwapDevice.Chosen | micronuts-app/src/command_handler.rs:212-234 | the positions blinded: ascending, exactly those whose blinding succeeds |
| SwapDevice.Firmware.BlindToken | micronuts-app/src/command_handler.rs:208-234 | the nested loops blind, in order, the proofs that can be blinded |
| SwapDevice.Firmware.WritePoints | micronuts-app/src/command_handler.rs:245-252 | the answer is the blinded points one after the other |
| SwapDevice.Firmware.HandleGetBlinded | micronuts-app/src/command_handler.rs:202-263 | the three lists are replaced together, or nothing changes |
| SwapDevice.Firmware.HandleSendSignatures | micronuts-app/src/command_handler.rs:265-360 | all entries pass the pinned-key check and become the proofs, or nothing changes; the unwraps never fail |
| SwapWire.GetBlindedGives | micronuts-app/src/command_handler.rs:202-263 | exactly when GetBlinded succeeds and how it fails; output i blinds its own proof with its own random bytes |
| SwapWire.PointAt | micronuts-app/src/command_handler.rs:245-252 | point i of the answer is at bytes 33i to 33i + 33 |
| SwapWire.SendSignaturesIff | micronuts-app/src/command_handler.rs:265-340 | exactly which payloads are accepted: 97 bytes an entry, point, e and s in that order, with a DLEQ proof that holds; and how others fail |
| SwapWire.AcceptedProofsAre | micronuts-app/src/command_handler.rs:330-356 | proof i carries secret and amount i, the unblinded point, (e, s, r) and the keyset id |
| SwapWire.HonestSignaturesAreAccepted | micronuts-app/src/command_handler.rs:265-360 | an honest mint's signatures with holding DLEQ proofs are always accepted |
| SwapRuns.StepKeepsInv | micronuts-app/src/command_handler.rs:18-381 | every command keeps the swap invariant |
| SwapRuns.SwapStateInvariant | micronuts-app/src/command_handler.rs:18-381 | after every command sequence: lists all absent or of one non-zero length; ready proofs are non-empty, passed the pinned-key DLEQ check, and list in order secrets and amounts of the token held at the GetBlinded they answer |
| SwapRuns.EverySequenceRuns | micronuts-app/src/command_handler.rs:18-360 | every command sequence has a run, and in it the lists match before every command, so the unwraps never fail |
| SwapRuns.RejectedCommandsChangeNothing | micronuts-app/src/command_handler.rs:26-360 | a rejected import, GetBlinded or SendSignatures leaves the state as it was |
| SwapRuns.PhaseIsLastAccepted | micronuts-app/src/command_handler.rs:18-360 | in every run the phase names the last accepted command, and the imported token is what the last accepted import or scan brought |
| SwapRuns.ReadyProofsVerify | micronuts-app/src/command_handler.rs:265-360 | every ready proof is k times its hashed secret, which the private-key verifier accepts |
| SwapRuns.ExportReadsBack | micronuts-app/src/command_handler.rs:366-381 | in any reachable state the exported token holds exactly the ready proofs, can be written, and both wire forms give it back |
| Adapter.ExclusiveKept | micronuts-audit-adapter/src/main.rs:111-117 | only the mutex holder is inside a call, it is the latest call, and ids follow calls modulo 2^32 |
| Adapter.OrderedKept | micronuts-audit-adapter/src/main.rs:111-161 | unread lines are in call order, with no more gaps than calls that wrote nothing |
| Adapter.AnsweredOnceKept | micronuts-audit-adapter/src/main.rs:111-161 | the mint answers each call at most once |
| AdapterRuns.OkIsOwnIff | micronuts-audit-adapter/src/main.rs:153-160 | an accepted reply is the call's own iff fewer than 2^32 ids were taken since the reply's |
| AdapterRuns.OkIff | micronuts-audit-adapter/src/main.rs:130-160 | with fewer than 2^32 ids taken since the line read was asked for, a call returns Ok iff it read an envelope and nothing stale was in the pipes |
| AdapterRuns.FewIsRecent | micronuts-audit-adapter/src/main.rs:111-161 | ids are to spare while unread lines and calls that wrote nothing number fewer than 2^32 |
| AdapterRuns.LagCountsAbandoned | micronuts-audit-adapter/src/main.rs:111-161 | in every run the stale replies are exactly the calls abandoned after writing |
| AdapterRuns.OneAbandonedCallBlocksAllLater | micronuts-audit-adapter/src/main.rs:111-161 | in every run a call returns Ok iff it read an envelope and no call was ever abandoned after writing |
| AdapterRuns.NextCallIsRefused | micronuts-audit-adapter/src/main.rs:111-161 | the call after an abandoned one is refused while its own request is still to be answered |
| AdapterRuns.EveryReplyIsOwn | micronuts-audit-adapter/src/main.rs:111-216 | in every run what a handler serves or caches is the mint's only answer to that very call, or a cached answer to the same request |
| AdapterRuns.OneBodyPerKey | micronuts-audit-adapter/src/main.rs:200-216 | if the mint accepts each request at most once, all 200 replies for a cache key, and the cache, agree |
| AdapterRuns.ReadComesTo | micronuts-audit-adapter/src/main.rs:130-194 | a call comes to a 200 body iff its line is an accepted envelope and nothing stale was in the pipes |
| AdapterRuns.LookUpComesTo | micronuts-audit-adapter/src/main.rs:205-209 | a hit serves the cached body and changes nothing else; a miss asks the mint for what the key stands for |
| AdapterRuns.StoreComesTo | micronuts-audit-adapter/src/main.rs:209-213 | the body is in the cache before it is served |
| AdapterRuns.EveryServedKeyIsStored | micronuts-audit-adapter/src/main.rs:200-216 | in every run a key that got a 200 body is in the cache |
| AdapterRuns.StoredKeyNeverAsksAgain | micronuts-audit-adapter/src/main.rs:200-216 | in every run a handler started after a body was stored never waits for, writes to or reads from the mint |
| AdapterRuns.RepeatedPostIsServed | micronuts-audit-adapter/src/main.rs:200-216 | a repeated POST is served what the cache holds |
| AdapterRuns.StaleReplyTakenAfterWrap | micronuts-audit-adapter/src/main.rs:112-113 | two outstanding replies suffice to confuse a call after 2^32 - 1 calls that wrote nothing |

## Left out

- PersistentWallets.PersistentWallet.DeterministicOutputs: the 32-bit index addition wraps, as in a build without overflow checks; with them the source panics there.
- ExactSearch.Dfs: the node counter is unbounded; the source's has 32 bits, which the work bound fits up to 92681 proofs (`ExactSearch.CounterFits`).
- Balance: sums of stored proofs are unbounded numbers; the source's 64-bit sums agree as long as they stay below 2^64.
- Key derivation (NUT-13) is taken to be injective, so a derived secret is named by the decoded keyset id and the index; decoding an id (`nut13.rs:155-166`) is a parameter.
- The wallet's transport is not modelled: the mint's answer, what the store loads and the end of each save are arguments of the operations.
- WalletRestores.RepeatedRestoresRecoverIff: speaks of signed indices below 2^32 - 1, the end of the last possible scan.
- Envelope: the CBOR codec of the body is a parameter that round-trips; changes that touch both header and body, other than of one byte, are not claimed.
- Crc works on words of 32 and bytes of 8 booleans instead of machine integers.
- Cbor: the decoders work on the remaining input instead of moving a cursor; skipping an item of any type and reading a scalar are parameters that never grow the input.
- Token: the three entry decoders and the encoders are functions, not loops that fill optional locals; only the two loops they share are methods.
- SwapDevice: the responses of GetTokenInfo and GetProofs and the display are not modelled; a scan is the import of a token from the same decoder, since the fragment assembler is not part of this model.
- SwapRuns.ExportReadsBack: says nothing about whether mint and unit are those of the token the proofs came from, which is not so when another token is imported in between.
- Adapter: handlers are steps on values between their `await` points rather than methods, because they interleave; a line is read or written whole, so a call abandoned in the middle of a line is not modelled, nor is a mint process that exits.
- Hash-to-curve, the group itself and DLEQ verification are parameters; that an accepted DLEQ proof binds the signature to the key is an assumption of `SwapRuns.ReadyProofsVerify`.
- The mint core, spending conditions, the JSON and error-code mappings, the wallet engine, UR decoding, displays, firmware, radio and serial code are left out.
