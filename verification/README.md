# Verification model of the Foretias core

Foretias nodes sign stamps under a key that lives for one tick and chain their ticks by attestations that both the
old and the new key sign. This project models the parts of the repository on which that rests, in Dafny, and proves
what they promise. `dafny verify dfyconfig.toml` checks all of it.

| part | files | main results |
|---|---|---|
| Merkle trees and range proofs | `MerkleSpec`, `Merkle` | `RootIsSplitHash`, `RootsEqualExactly`, `RootBindsLeaves`, `RangeProofExact`, `RangeProofSound`, `RangeProofComplete`, `PathExactly` |
| Noise_XX handshake and transport | `NoiseSpec`, `Noise`, `NoiseProofs`, `NoiseAuthentication` | `AgreementOverNetwork`, `TransportAuthenticates`, `MessageThreeAuthenticates`, `HandshakeAgreement`, `EmittedNoncesIncrease`, `TransportOverNetwork` |
| Wrapping of private keys | `PrivKey` | `NonceReuseExactly`, `BoxOpensUntilCleanup` |
| Signed bytes | `Encoding`, `Records` | `PostcardInjective`, `PairBlobInjective`, `StampIsNoAttestation` |
| The ticking signer and its chain | `CalendarSpec`, `Calendar`, `ChronoSpec`, `ChronoProofs`, `ChronoSoundness`, `Chronomatter` | `ReachableChainVerifies`, `EveryStampVerifies`, `OnlyIssuedStampsVerify`, `RetiredKeySignsNothing`, `NoFork`, `KeyCannotBeAdopted` |
| Record gates | `CleanAuth` | `IncrementalEqualsBatch`, `OnlyIssuedStampsPass`, `HonestRecordsThroughTheGate` |
| Saving with crashes | `Storage` | `CrashSafety`, `GateOpensExactly`, `LoadAndVerifySucceeds`, `RecoverySurvivesExactly` |
| Mirrors | `Mirror` | `FirstWins`, `MirrorRebuildsCalendar`, `QueriesAgree`, `SanityExactly` |
| Signed text snapshots | `SnapshotText`, `Snapshot`, `SnapshotProofs`, `SnapshotRoundTrip` | `RoundTripExactly`, `OneChangeFailsFromThere`, `FooterBindsTexts`, `ListBound` |

Code that changes state is modelled as it is: the C loops over arrays, the handshake state, the key module, the
calendar, the node, the files and the mirror store are methods and classes, each proved against a function of the old
state. The properties of runs are proved about those functions.

Cryptography is ideal and symbolic. A SHA-256 value of a tree node is a free constructor, so hashing is injective.
In the handshake, hashes, MACs and ciphertexts are free constructors, X25519 commutes and fails on low-order points,
and a ciphertext opens only under the key, nonce and associated data it was sealed with. Signatures over records are
functions of which only correctness is asked (`Records.Correct`); where forgery matters the statement says so
(`NoForgery`, `NoForgedStamp`, `NoForgedAdoption`, `NoForgedIdentity`, each about what is presented only). Snapshot signatures are ideal (`Snapshot.Ideal`) or binding
(`Snapshot.Binding`). Clock readings, random draws and message texts are parameters; keys and key encryption keys are
drawn afresh.

Where a documented or expected property is false of the code, the code is kept and the exact condition is proved:

- The single-leaf tree verifier hashes pairs without the 0x01 prefix, so no path leads to the root of a tree
  (`NoPathLeadsToTreeRoot`).
- A tree root binds the number of leaves exactly as far as `RootsEqualExactly` says: fully where no leaf is a node hash
  and the last is not zero (`RootBindsLeaves`), hence for hashed data (`RootBindsData`), and not without either half of
  that condition (`RootDoesNotBindCount`).
- Handshake hashes and counters of the two ends agree exactly when no bytes follow the third message's ciphertext
  (`MatchingTranscripts`, `LongerFrameAccepted`). Nothing that a network without the key of the third mix has can be put
  there (`AgreementOverNetwork`).
- The static key named in message 3 is authenticated by that message exactly where the ephemeral key of message 1 was
  not the network's own (`NamedKeyExactly`, with `MessageThreeAuthenticates` for one half and `AnyKeyCanBeNamed` for the
  other), since the source seals no empty payload under the key of the third mix. The first transport message
  authenticates it always (`TransportAuthenticates`).
- A rejected handshake message blocks the genuine one exactly when the static key sealed in it opens
  (`RetryAfterRejectedTwo`, `RetryAfterRejectedThree`; `StrayBytesBlockRetry` gives inputs).
- Transport nonces start at 1, not 0, because the counters are not reset at the split (`HandshakeAgreement`).
- A node's own integrity check looks at 10,000 records at most, with the exact condition under which that makes a
  difference (`NodeCheckExactly`; `LaterBreakIsMissed` gives the calendars).
- The record gate refuses a dual-key first record as not implemented (`HonestRecordsThroughTheGate`).
- A calendar recovered from the temporary file is not made durable, although the comment on `save` speaks of recovery.
  It outlives the next crash exactly under a condition on the two files (`RecoverySurvivesExactly`;
  `RecoveredRecordsCanBeLost` gives a run).
- Two mirrors compare equal exactly when their tick numbers do, short of a collision (`SanityExactly`,
  `SanityHashExactly`).
- Canonical snapshot blocks are said to concatenate unambiguously, so that changing an earlier block fails all later
  signatures. Text moved over a block boundary leaves them valid (`BoundaryMoves`); a change of one block fails them
  (`OneChangeFailsFromThere`). `ChecksCompareTexts` says exactly when a check holds.
- A snapshot built from other than one result, or with a fence line or CRLF inside a block, does not verify when read
  back (`RoundTripExactly`).

## Model

| member | source | states |
|---|---|---|
| MerkleSpec.DepthIsLeast | p2p/core/src/merkle.c:111-126 | the padded width is the least power of two that holds n leaves, and its exponent is the depth: both directions |
| Merkle.HashLeaf | p2p/core/src/merkle.c:23-50 | a leaf is the hash of the byte 0x00 and the data, null data is refused |
| Merkle.NodeInput | p2p/core/src/merkle.c:10-16 | a node is the hash of 0x01, the left and the right half; the pair hash of the single-leaf verifier has no prefix |
| MerkleSpec.RootIsSplitHash | p2p/core/src/merkle.c:128-168 | the root equals an independent definition: split the zero-padded leaves in the middle and hash the two halves |
| MerkleSpec.RootBindsPaddedLeaves | p2p/core/src/merkle.c:128-168 | at one padded width two roots are equal if and only if the padded leaf sequences are |
| MerkleSpec.RootsEqualExactly | p2p/core/src/merkle.c:128-168 | for any two lists, roots are equal if and only if the padded leaves of the narrower tree are, place by place, nodes of the wider |
| MerkleSpec.RootBindsLeaves | p2p/core/src/merkle.c:128-168 | for lists without node hashes among the leaves and without a zero leaf at the end, roots are equal if and only if the lists are: width, count and leaves are bound |
| MerkleSpec.RootBindsData | p2p/core/src/merkle.c:18-60 | data hashed with the 0x00 leaf prefix is bound by the root of its tree, for any two nonempty lists of data |
| MerkleSpec.RootDoesNotBindCount | p2p/core/src/merkle.c:145-168 | each half of that condition is needed: any tree of two or more leaves shares its root with the list of that one node, and any list that does not fill its width with the list that has a zero leaf more |
| MerkleSpec.ParentLevelComplete | p2p/core/src/merkle.c:279-324 | from true nodes and true end siblings a verifier pass gives the true parents |
| MerkleSpec.ParentLevelSound | p2p/core/src/merkle.c:279-324 | from a pass that gives true parents, every node and every end sibling it consumed was the true one |
| MerkleSpec.ReadsLevel | p2p/core/src/merkle.c:283-318 | what a pass reads at the cursor is the end siblings of its level, then the rest |
| MerkleSpec.ClimbCount | p2p/core/src/merkle.c:279-324 | over all levels the verifier reads exactly as many siblings as the prover emits |
| MerkleSpec.ClimbExact | p2p/core/src/merkle.c:279-331 | the climb ends in the root of the tree if and only if the window and all siblings read are the true nodes |
| Merkle.Int32Wraps | p2p/core/src/merkle.c:226-227 | a size is stored as the signed 32-bit value with the same low bits |
| Merkle.NextPow2 | p2p/core/src/merkle.c:111-117 | returns the least power of two not below n |
| Merkle.Log2 | p2p/core/src/merkle.c:119-126 | returns the exponent of the greatest power of two not above n, 0 for 0 |
| Merkle.HashPairs | p2p/core/src/merkle.c:157-164 | one pass of the ping-pong loop turns a level of the tree into the next |
| Merkle.PaddedCopy | p2p/core/src/merkle.c:145-150 | the buffer holds level 0 of the padded tree |
| Merkle.RootFromLeaves | p2p/core/src/merkle.c:128-168 | the ping-pong loop returns the root of the recursive tree, with its rejections of null, empty and too many leaves |
| Merkle.LevelOffsets | p2p/core/src/merkle.c:200-204 | every level of the flattened tree starts where the one below ends |
| Merkle.BuildTree | p2p/core/src/merkle.c:200-223 | the flattened array holds every node of the recursive tree at its offset |
| Merkle.BuildLevel | p2p/core/src/merkle.c:213-223 | one level of the flattened tree is hashed from the one below and nothing already stored is overwritten |
| Merkle.BuildLevels | p2p/core/src/merkle.c:213-223 | after the loop all levels are stored |
| Merkle.EmitSiblings | p2p/core/src/merkle.c:232-249 | the emitted siblings are those of the specification, level by level, left before right |
| Merkle.EmitLevel | p2p/core/src/merkle.c:236-246 | one level emits its left sibling if s is odd and its right one if e is odd and inside the level |
| Merkle.CopyLeaves | p2p/core/src/merkle.c:228-230 | the proof receives the leaves of the range, zero behind them |
| Merkle.EmitProof | p2p/core/src/merkle.c:225-249 | the proof holds the count, the leaves of the range and the siblings, zero elsewhere |
| Merkle.ProveRange | p2p/core/src/merkle.c:170-250 | the generated proof is exactly the honest proof, all array accesses are in bounds, and bad input is rejected in order |
| Merkle.ClimbLevel | p2p/core/src/merkle.c:279-324 | one pass computes the parents of the window with the siblings at the cursor, and moves the cursor past them |
| Merkle.RebuildMatches | p2p/core/src/merkle.c:270-341 | the loop answers whether the climb over all levels ends in the given root alone |
| Merkle.VerifyRange | p2p/core/src/merkle.c:252-343 | result codes and verdict on every proof whose leaves fit and whose climb reads no sibling beyond the array, which the C code does not check |
| Merkle.VerdictCodes | p2p/core/src/merkle.c:266-283 | which range or count gives which verdict |
| Merkle.RangeProofExact | p2p/core/src/merkle.c:252-343 | a proof of the right padded width is accepted if and only if its leaves are the tree's range and its siblings the true nodes in order |
| Merkle.RangeProofSound | p2p/core/src/merkle.c:252-343 | an accepted proof carries exactly leaves[start..end] and the true siblings |
| Merkle.RangeProofComplete | p2p/core/src/merkle.c:170-343 | the generated proof is accepted against the root and the verifier reads exactly the siblings emitted, in order |
| Merkle.VerifySingle | p2p/core/src/merkle.c:62-99 | rejects a depth outside 1 to 32, and otherwise accepts if and only if all directions are 0 or 1 and the path leads from leaf to root |
| MerkleSpec.PlainNodeIsSplitHash | p2p/core/src/merkle.c:10-16 | the nodes of the tree without prefixes equal its definition by splitting in the middle |
| Merkle.PathExactly | p2p/core/src/merkle.c:73-96 | against the tree of 2^d leaves without prefixes, a path with the directions of place i leads from a leaf to the root if and only if the leaf is the one at that place and all siblings are true nodes |
| Merkle.NoPathLeadsToTreeRoot | p2p/core/src/merkle.c:10-16 | the single-leaf verifier hashes pairs without the 0x01 prefix, so it accepts nothing against the root of a tree of two or more leaves |
| Noise.Session.constructor | p2p/core/src/noise_xx.c:167-235 | a session starts at step 0 with the protocol name as hash and chaining key and both counters 0 |
| NoiseSpec.X25519Agrees | p2p/core/src/noise_xx.c:41-43 | both ends compute one value, and exactly the keys of low order make it fail |
| Noise.Session.EncryptAndHash | p2p/core/src/noise_xx.c:57-100 | seals under key, counter and hash, then advances the counter and mixes the ciphertext in; refuses at the last counter value |
| Noise.Session.DecryptAndHash | p2p/core/src/noise_xx.c:75-112 | opens, advances and mixes only on success, changes nothing otherwise |
| Noise.Session.ReadPayload | p2p/core/src/noise_xx.c:419-431 | what follows the fixed part of a message: nothing, too short, refused or opened, with the hash and counter each leaves |
| Noise.Session.Step | p2p/core/src/noise_xx.c:326-687 | dispatch on role and step; whole new state, code and output of every branch |
| Noise.Session.StepWriteOne | p2p/core/src/noise_xx.c:344-371 | initiator message 1 |
| Noise.Session.StepReadTwo | p2p/core/src/noise_xx.c:373-446 | initiator reads message 2, keeping what was written before a failure |
| Noise.Session.StepWriteThree | p2p/core/src/noise_xx.c:448-505 | initiator message 3 and the split into transport keys |
| Noise.Session.StepReadOne | p2p/core/src/noise_xx.c:511-520 | responder reads message 1 |
| Noise.Session.StepWriteTwo | p2p/core/src/noise_xx.c:522-604 | responder message 2 |
| Noise.Session.StepReadThree | p2p/core/src/noise_xx.c:606-681 | responder reads message 3 and splits crosswise |
| Noise.Session.Finish | p2p/core/src/noise_xx.c:479-503 | the state a finished handshake leaves |
| Noise.Session.Send | p2p/core/src/noise_xx.c:689-714 | seals under the send key and counter; unchanged on failure |
| Noise.Session.Recv | p2p/core/src/noise_xx.c:716-741 | opens under the receive key and counter; unchanged on failure |
| NoiseProofs.AfterKnowledge | p2p/core/src/noise_xx.c:326-741 | what every history of calls and inputs from the network leaves a session knowing about its keys |
| NoiseProofs.MatchingTranscripts | p2p/core/src/noise_xx.c:448-681 | if a responder accepts an honest initiator's message 3 ciphertext, keys and identities match; hashes and counters match if and only if nothing followed the ciphertext |
| NoiseProofs.NoReplayedPayload | p2p/core/src/noise_xx.c:640-655 | no ciphertext of any honest session passes for a payload behind message 3 |
| NoiseProofs.LongerFrameAccepted | p2p/core/src/noise_xx.c:606-655 | the other kind of input: a payload sealed under the key of the third mix behind any accepted message 3 is accepted, and moves hash and counter |
| NoiseProofs.AgreementOverNetwork | p2p/core/src/noise_xx.c:448-681 | with an honest message 3 ciphertext and nothing behind it that is sealed under the key of the third mix by others, hashes, keys, identities and counters of both ends are equal |
| NoiseProofs.EmitsUnderSealingKey | p2p/core/src/noise_xx.c:57-73 | every ciphertext leaves under a key of its role with the current counter, which then moves on |
| NoiseProofs.EmittedNoncesIncrease | p2p/core/src/noise_xx.c:57-73 | over any history of a session the nonces it emits strictly increase, across handshake and transport |
| NoiseProofs.NoNonceReuseBetweenRoles | p2p/core/src/noise_xx.c:19-38 | an initiator and a responder, each created with any peer key or none, never seal under the same key |
| NoiseProofs.HandshakeAgreement | p2p/core/src/noise_xx.c:326-687 | three messages delivered unmodified complete both roles, each created with any peer key or none, with equal hashes, crosswise keys, peer identities and level counters starting at 1 |
| NoiseProofs.OutputFits | p2p/core/src/noise_xx.c:344-604 | no handshake step writes more than its room; with too little room it changes nothing |
| NoiseProofs.ShortInputChangesNothing | p2p/core/src/noise_xx.c:373-609 | a message too short for its fixed part changes nothing |
| NoiseProofs.CodesOfTwo | p2p/core/src/noise_xx.c:373-446 | which defect of message 2 gives which code |
| NoiseProofs.CodesOfThree | p2p/core/src/noise_xx.c:606-681 | the same for message 3 |
| NoiseProofs.CodesOfWriting | p2p/core/src/noise_xx.c:344-604 | when messages 1 to 3 are written and with which code not |
| NoiseProofs.TransportCodes | p2p/core/src/noise_xx.c:689-741 | exactly when a transport message is sent and with which code sending and receiving fail; a failure changes nothing |
| NoiseProofs.RetryAfterRejectedTwo | p2p/core/src/noise_xx.c:373-446 | a rejected message 2 leaves the genuine one acceptable if and only if the static key sealed in the rejected one does not open |
| NoiseProofs.RetryAfterRejectedThree | p2p/core/src/noise_xx.c:606-681 | the same for message 3 |
| NoiseProofs.StrayBytesBlockRetry | p2p/core/src/noise_xx.c:373-446 | inputs of the failing kind: sixteen stray bytes behind the genuine message 2, or 3 |
| NoiseProofs.ChannelStepKeepsInv | p2p/core/src/noise_xx.c:689-741 | every send and every delivery keeps both directions in order |
| NoiseProofs.TransportSafety | p2p/core/src/noise_xx.c:689-741 | over any run with drops, duplicates, reorderings, reflections and injections the accepted plaintexts are a prefix of those sent and no key and nonce seal twice |
| NoiseProofs.GenuineNextIsAccepted | p2p/core/src/noise_xx.c:716-741 | a rejected ciphertext changes nothing, and at every point the genuine next one is accepted with its plaintext, in both directions |
| NoiseAuthentication.DerivedIsKnown | p2p/core/src/noise_xx.c:10-100 | nothing but what the form of a string says can be computed, in any number of steps |
| NoiseAuthentication.DerivableExactly | p2p/core/src/noise_xx.c:10-112 | the network can compute a string from what it has seen if and only if the form of the string says so: both directions, by building the computation |
| NoiseAuthentication.EqualChainsMatch | p2p/core/src/noise_xx.c:19-38 | an initiator and a responder that finished with one chaining key, from different ephemeral keys, finished with each other |
| NoiseAuthentication.TransportKeysSecret | p2p/core/src/noise_xx.c:30-38 | the transport keys of a session with its own ephemeral key and an honest named peer are out of the network's reach |
| NoiseAuthentication.TransportAuthenticates | p2p/core/src/noise_xx.c:716-741 | an accepted transport message was sent, with that plaintext, by a session of the named peer that finished the very same handshake |
| NoiseAuthentication.ThirdMessageExactly | p2p/core/src/noise_xx.c:606-625 | the key that opens message 3 can be derived by the network if and only if the ephemeral key in message 1 was its own |
| NoiseAuthentication.AnyKeyCanBeNamed | p2p/core/src/noise_xx.c:606-681 | with an ephemeral key of its own and message 2 before it, the network can derive a message 3 that is accepted and names any static key |
| NoiseAuthentication.NamedKeyExactly | p2p/core/src/noise_xx.c:606-681 | a responder can be brought to accept a message 3 naming a key with no initiator session if and only if the ephemeral key in message 1 was the network's own |
| NoiseAuthentication.MessageThreeAuthenticates | p2p/core/src/noise_xx.c:606-681 | where that ephemeral key was not its own, a responder accepting message 3 has a matching initiator session of the named key with equal hash, keys and counters |
| NoiseAuthentication.KeysUnusedElsewhere | p2p/core/src/noise_xx.c:30-38 | no handshake message and no traffic of sessions with other ephemeral keys is sealed under the transport keys of a matched pair |
| NoiseAuthentication.TransportOverNetwork | p2p/core/src/noise_xx.c:689-741 | between two honest sessions that finished with each other, whatever the network derives from all traffic: prefix acceptance both ways, no key and nonce twice, and the genuine next message is accepted |
| PrivKey.Module.constructor | p2p/core/src/privkey.c:17-22 | the statics start uninitialized |
| PrivKey.Module.Initialize | p2p/core/src/privkey.c:67-72 | draws a key and resets the counter, only when none is live |
| PrivKey.Module.CleanUp | p2p/core/src/privkey.c:74-78 | forgets key and counter |
| PrivKey.Module.Generate | p2p/core/src/privkey.c:80-120 | wraps a fresh seed under the next counter value, or fails without touching the counter |
| PrivKey.Module.FromSeed | p2p/core/src/privkey.c:122-156 | the same for a given seed, refusing a missing one |
| PrivKey.Module.Encrypt | p2p/core/src/privkey.c:274-290 | wraps a given secret; error codes |
| PrivKey.Module.Decrypt | p2p/core/src/privkey.c:292-306 | opens only the whole box, under the live key and its nonce; error codes |
| PrivKey.AfterInv | p2p/core/src/privkey.c:67-156 | what every sequence of calls keeps: boxes under one key have counters as far apart as their positions, modulo 2^64 |
| PrivKey.CounterCountsSeals | p2p/core/src/privkey.c:67-149 | the counter is the number of seals under the live key, modulo 2^64, and each seal uses the value it is stepped to |
| PrivKey.NonceReuseExactly | p2p/core/src/privkey.c:102-149 | two boxes share key and nonce if and only if sealed under one key a multiple of 2^64 seals apart |
| PrivKey.NoNonceReuse | p2p/core/src/privkey.c:102-149 | below 2^64 seals no counter value is used twice under one key |
| PrivKey.KeyHeldExactly | p2p/core/src/privkey.c:67-78 | the key in use at a call is still in use after any further calls if and only if there was no cleanup since |
| PrivKey.BoxOpensUntilCleanup | p2p/core/src/privkey.c:274-306 | a box sealed by any call opens with its secret, after any further calls, if and only if nothing was cleaned up since and nonce and length are its own; every failure has its code |
| Encoding.HexRoundTrip | p2p/core-engine/src/foretias/tick.rs:437-460 | hex text decodes to the bytes it came from |
| Encoding.HexInjective | p2p/core-engine/src/foretias/tick.rs:437-460 | different identities have different hex texts |
| Encoding.HexDecodeExactly | p2p/core-engine/src/snapshot_signature.rs:278-281 | what is accepted as hex is the text the encoder produces, in either case |
| Encoding.Base64RoundTrip | p2p/core-engine/src/foretias/encoding.rs:100-107 | base64 text, padded or URL-safe, decodes to the bytes it came from |
| Encoding.Base64Injective | p2p/core-engine/src/foretias/encoding.rs:191-199 | different byte arrays serialize to different texts |
| Encoding.SymbolsCanonical | p2p/core-engine/src/foretias/encoding.rs:201-222 | an accepted base64 text is the one text its bytes encode to; stray trailing bits are refused |
| Encoding.DecodeExactly | p2p/core-engine/src/snapshot_signature.rs:301-313 | a base64 text decodes to some bytes if and only if it is the one text they encode to, padding included |
| Encoding.KnownTexts | p2p/core-engine/src/foretias/encoding.rs:100-107 | texts given in section 10 of RFC 4648 and the two symbols in which the alphabets differ |
| Encoding.DecodeArrayExactly | p2p/core-engine/src/foretias/encoding.rs:191-222 | a serialized array is read back, and a text is accepted if and only if it is the encoding of an array of the right length |
| Encoding.U64Injective | p2p/core-engine/src/foretias/tick.rs:444-458 | eight big-endian bytes fix a 64-bit number |
| Encoding.U64Number | p2p/core-engine/src/foretias/tick.rs:651-669 | the eight bytes hold the number, most significant first |
| Encoding.VarintPrefixFree | p2p/core-engine/src/foretias/tick.rs:236-240 | no varint is the beginning of another |
| Encoding.VarintRoundTrip | p2p/core-engine/src/foretias/tick.rs:236-240 | a varint read back, least significant group first, gives the number and what follows |
| Encoding.TextPrefixFree | p2p/core-engine/src/foretias/tick.rs:236-240 | no length-prefixed text is the beginning of another |
| Encoding.TextRoundTrip | p2p/core-engine/src/foretias/tick.rs:236-240 | a length-prefixed text read back gives the text and what follows |
| Records.PostcardInjective | p2p/core-engine/src/foretias/tick.rs:170-183 | the signed bytes of a stamp fix all six fields |
| Records.PostcardRoundTrip | p2p/core-engine/src/foretias/tick.rs:170-183 | the signed bytes of a stamp, read field by field in the declared order, give the stamp |
| Records.PairBlobInjective | p2p/core-engine/src/foretias/tick.rs:437-460 | the signed bytes of a pair attestation fix all seven fields |
| Records.PairBlobLayout | p2p/core-engine/src/foretias/tick.rs:651-669 | where each field of a pair attestation stands in its 296 bytes |
| Records.GenesisPairBlobInjective | p2p/core-engine/src/foretias/tick.rs:477-501 | the same for the genesis attestation, with its embedded signature of any length |
| Records.GenesisPairBlobLayout | p2p/core-engine/src/foretias/tick.rs:625-649 | where each field of the genesis attestation stands |
| Records.GenesisBlobLayout | p2p/core-engine/src/foretias/tick.rs:616-622 | where each field of what the identity signs stands |
| Records.PairBlobIsNotGenesis | p2p/core-engine/src/foretias/tick.rs:437-501 | a pair attestation is never a genesis attestation |
| Records.PostcardIsNotHexText | p2p/core-engine/src/foretias/tick.rs:236-240 | the signed bytes of a stamp never begin with two hex digits |
| Records.StampIsNoAttestation | p2p/core-engine/src/foretias/tick.rs:437-501 | the signed bytes of a stamp are never those of an attestation, regular or genesis |
| Records.PairVerdicts | p2p/core-engine/src/foretias/tick.rs:503-555 | an ordinary pair is valid if and only if both keys signed the same bytes, and an error if and only if either check is |
| Records.GenesisVerdict | p2p/core-engine/src/foretias/tick.rs:503-614 | a first record is valid if and only if both halves carry the same nonempty identity signature over its own tick and key and both keys signed bytes that cover it; when it is an error |
| Records.StampVerdicts | p2p/core-engine/src/foretias/tick.rs:408-429 | a wrong content is refused before anything else, a missing record is an error, otherwise the signature decides |
| CalendarSpec.PairResultsExactly | p2p/core-engine/src/foretias/calendar.rs:127-140 | the check is all true if and only if every record follows from the one before; its length |
| CalendarSpec.PairResultAt | p2p/core-engine/src/foretias/calendar.rs:127-140 | result i is that of records i and i+1 |
| CalendarSpec.RangeIsSlice | p2p/core-engine/src/foretias/calendar.rs:114-126 | a range of tick numbers selects neighbouring records, bounds included |
| CalendarSpec.LinkedPassesEveryRange | p2p/core-engine/src/foretias/calendar.rs:114-140 | a linked calendar passes over every range, empty and inverted ones too |
| CalendarSpec.NodeCheckExactly | p2p/core-engine/src/chronomatter/mod.rs:579-621 | the node's own check gives the first 9,999 results; it agrees with the calendar's if and only if the range holds at most 10,000 records or a pair check among those cannot be carried out |
| CalendarSpec.LaterBreakIsMissed | p2p/core-engine/src/chronomatter/mod.rs:589-612 | on any calendar with a break behind the ten-thousandth record the calendar's check reports it and the node's does not |
| Calendar.Calendar.constructor | p2p/core-engine/src/foretias/calendar.rs:24-32 | a calendar starts empty |
| Calendar.Calendar.Append | p2p/core-engine/src/foretias/calendar.rs:94-105 | appends exactly records above every tick number it holds, and keeps the calendar increasing |
| Calendar.Calendar.TickAt | p2p/core-engine/src/foretias/calendar.rs:42-47 | binary search finds the record of a tick number if there is one |
| Calendar.Calendar.Check | p2p/core-engine/src/foretias/calendar.rs:114-140 | the loop returns the pairwise results of the range, or fails when a check fails to run |
| Calendar.Calendar.AddExternalAttestation | p2p/core-engine/src/foretias/calendar.rs:255-271 | adds to the first record of that tick, changes no other, reports whether there is one |
| CalendarSpec.AttestationAdded | p2p/core-engine/src/foretias/calendar.rs:255-271 | only the first record of that tick changes, and only by the attestation behind the others |
| Calendar.CheckPairs | p2p/core-engine/src/foretias/calendar.rs:127-140 | the loop gives the result of every consecutive pair, or nothing once a check fails to run |
| Chronomatter.Node.CheckCalendar | p2p/core-engine/src/chronomatter/mod.rs:579-621 | the node checks at most 10,000 records from the start of the range |
| Chronomatter.Node.constructor | p2p/core-engine/src/chronomatter/mod.rs:58-86 | a node starts at tick 0 without keys, awake, whatever its observer holds; with an empty calendar its invariant holds |
| Chronomatter.Node.GenerateAndStoreKeypair | p2p/core-engine/src/chronomatter/mod.rs:174-188 | the eviction loop keeps the last two keys |
| Chronomatter.Node.SignWithKeypair | p2p/core-engine/src/chronomatter/mod.rs:190-204 | signs with the key counted from the newest |
| Chronomatter.Node.BuildTickRecord | p2p/core-engine/src/chronomatter/mod.rs:213-380 | genesis or regular record, both signatures over one blob, stamp counter read and reset |
| Chronomatter.Node.RecordTick | p2p/core-engine/src/chronomatter/mod.rs:382-386 | the observer's calendar grows by exactly that record |
| Chronomatter.Node.Stamp | p2p/core-engine/src/chronomatter/mod.rs:390-454 | new tick, new key, one stamp under it, one record; the stamp returned has every field from where it belongs and is the one added; nothing while dormant |
| Chronomatter.Node.Tick | p2p/core-engine/src/chronomatter/mod.rs:558-577 | new tick, new key, one record without stamp; nothing while dormant |
| Chronomatter.Node.SetDormantFlag | p2p/core-engine/src/chronomatter/mod.rs:121-123 | changes the flag alone |
| ChronoSpec.AdvanceShape | p2p/core-engine/src/chronomatter/mod.rs:405-454 | every field of a node after a step, the signatures made in order included |
| ChronoSoundness.StepEffects | p2p/core-engine/src/chronomatter/mod.rs:390-577 | what each kind of step does to an awake and to a dormant node, every field of an issued stamp included |
| ChronoSpec.NextKeepsInv | p2p/core-engine/src/chronomatter/mod.rs:390-577 | window, history, records and stamp counts are kept by every step |
| ChronoSpec.RunKeepsInv | p2p/core-engine/src/chronomatter/mod.rs:390-577 | and so hold in every state of every run |
| ChronoProofs.ReachableChainVerifies | p2p/core-engine/src/chronomatter/mod.rs:558-621 | in every run record i has tick i+1, both integrity checks are all true on every range, and stamp counts add up to stamps issued |
| ChronoProofs.HonestGenesis | p2p/core-engine/src/foretias/tick.rs:557-614 | the first record of every run verifies against itself, identity signature included |
| ChronoProofs.EveryStampVerifies | p2p/core-engine/src/foretias/tick.rs:408-429 | every past stamp verifies against any later calendar for contents with its hash and for no other |
| ChronoSoundness.OnlyIssuedStampsVerify | p2p/core-engine/src/foretias/tick.rs:408-429 | whatever stamp, signature, algorithm and content verifies against the node's calendar was, short of a forgery, issued by the node for a content with that hash |
| ChronoSoundness.FutureStamp | p2p/core-engine/src/foretias/tick.rs:408-429 | a stamp of a tick that has not come cannot be verified yet |
| ChronoProofs.KeyStoreIsWindow | p2p/core-engine/src/chronomatter/mod.rs:174-188 | the key store holds exactly the keys of the last min(2, t) ticks |
| ChronoProofs.KeySignsOnly | p2p/core-engine/src/chronomatter/mod.rs:190-244 | the key of tick n signs only a stamp of tick n and the attestations of ticks n and n+1 |
| ChronoProofs.KeyStampsOnce | p2p/core-engine/src/chronomatter/mod.rs:405-454 | no key signs two stamps |
| ChronoProofs.RunGrows | p2p/core-engine/src/chronomatter/mod.rs:382-454 | calendar and signature history only ever grow |
| ChronoProofs.RetiredKeySignsNothing | p2p/core-engine/src/chronomatter/mod.rs:174-204 | once tick n+1 is recorded the key of tick n signs nothing more |
| ChronoProofs.OnlySuccessorAttested | p2p/core-engine/src/foretias/tick.rs:437-460 | a pair attestation signed by the key of tick n is the one of tick n+1, never a stamp or a genesis attestation |
| ChronoProofs.ForkStep | p2p/core-engine/src/foretias/tick.rs:503-555 | a verifying successor of an honest record is the honest successor |
| ChronoProofs.NoFork | p2p/core-engine/src/foretias/tick.rs:503-555 | any increasing, pairwise verifying calendar that starts at a run's first tick and key is a prefix of that run in tick numbers, keys, stamp counts and nonces |
| ChronoSoundness.KeyCannotBeAdopted | p2p/core-engine/src/foretias/tick.rs:503-555 | a verifying ordinary pair whose second record has a key of the node is, short of a forgery, the node's own pair in tick numbers, keys, stamp count and nonce |
| ChronoSoundness.FirstRecordIsTheNodes | p2p/core-engine/src/foretias/tick.rs:595-614 | a verifying first record of the node's identity has, short of a forgery, the node's first key |
| ChronoSoundness.HonestIsNotForged | p2p/core-engine/src/chronomatter/mod.rs:190-244 | every signature in the node's records and stamps is in the history the statements about forgery refer to |
| CleanAuth.GateIsLinked | p2p/core-engine/src/foretias/clean_auth.rs:565-583 | feeding records one by one succeeds if and only if consecutive pairs verify |
| CleanAuth.IncrementalEqualsBatch | p2p/core-engine/src/foretias/clean_auth.rs:565-608 | from a trusted first record the gate accepts all the rest if and only if the calendar's integrity check is all true |
| CleanAuth.HonestRecordsThroughTheGate | p2p/core-engine/src/foretias/clean_auth.rs:584-602 | every honest record but the first passes; a dual-key first record is refused as not implemented |
| CleanAuth.FirstRecordGate | p2p/core-engine/src/foretias/clean_auth.rs:584-602 | without a predecessor exactly first records of version 0 with a key pass; which defect gives which code |
| CleanAuth.GateTellsErrors | p2p/core-engine/src/foretias/clean_auth.rs:571-583 | a break is told from a check that could not be carried out |
| CleanAuth.StampsThroughTheGate | p2p/core-engine/src/foretias/clean_auth.rs:716-760 | what the gate says of an issued stamp against any record: chain break for another tick, invalid signature for another hash, accepted otherwise |
| CleanAuth.OnlyIssuedStampsPass | p2p/core-engine/src/foretias/clean_auth.rs:716-760 | with any list of signatures, a stamp that passes was, short of a forgery by its first entry, issued for that tick and a content with that hash |
| CleanAuth.OddListsDoNotPass | p2p/core-engine/src/foretias/clean_auth.rs:738-752 | an empty list is refused and a dual-key entry is an error |
| Storage.FileStore.constructor | p2p/core-engine/src/foretias/calendar.rs:148-170 | no files at first |
| Storage.FileStore.Save | p2p/core-engine/src/foretias/calendar.rs:148-167 | what both files hold after a save that completes, tears or stops before the rename; the same step as in the runs |
| Storage.FileStore.Load | p2p/core-engine/src/foretias/calendar.rs:170-229 | the longer readable calendar, the temporary file removed where possible; the same step as in the runs |
| Storage.StepDurable | p2p/core-engine/src/foretias/calendar.rs:148-218 | every step keeps all readable copies extensions of the last renamed calendar, and that calendar only grows |
| Storage.CrashSafety | p2p/core-engine/src/foretias/calendar.rs:148-218 | once a save has completed, after any crashes and restarts every load succeeds with an extension of what it wrote |
| Storage.RecoverySurvivesExactly | p2p/core-engine/src/foretias/calendar.rs:170-218 | over any events without a save, a later start finds the calendar it would have found at first if and only if no start removed the temporary file or the two files were such that it does not matter |
| Storage.RecoveredRecordsCanBeLost | p2p/core-engine/src/foretias/calendar.rs:199-211 | a run in which a calendar recovered from the temporary file is gone after the next restart |
| Storage.AttestationsUnsigned | p2p/core-engine/src/foretias/tick.rs:503-555 | attestations by others are not part of what a pair check covers |
| Storage.LoadAndVerifySucceeds | p2p/core-engine/src/foretias/calendar.rs:231-253 | a process that appends only records that follow never fails the verification gate on a later load |
| Storage.GateOpensExactly | p2p/core-engine/src/foretias/calendar.rs:231-253 | the gate hands out a calendar if and only if a load gives it and its records in the asked range follow from one another |
| Mirror.MirrorStore.constructor | p2p/foretias-client/src/calendar/mirror.rs:18-24 | no mirrors at first |
| Mirror.MirrorStore.InsertMirrored | p2p/foretias-client/src/calendar/mirror.rs:47-59 | unchanged for a known tick number, otherwise pushed and sorted; other calendars untouched |
| Mirror.MirrorStore.GetMirrored | p2p/foretias-client/src/calendar/mirror.rs:61-77 | at most count records from a tick number on; an error for an unknown calendar |
| Mirror.MirrorStore.LatestRecord | p2p/foretias-client/src/calendar/mirror.rs:79-84 | the record with the greatest tick number |
| Mirror.MirrorStore.HashSanity | p2p/foretias-client/src/calendar/mirror.rs:110-120 | hash of the tick numbers, eight big-endian bytes each |
| Mirror.MirrorStore.MirrorInfo | p2p/foretias-client/src/calendar/mirror.rs:86-96 | count, latest tick and hash, none for an unknown or empty mirror |
| Mirror.SortKeepsRecords | p2p/foretias-client/src/calendar/mirror.rs:57-57 | sorting orders the records and loses and invents none |
| Mirror.FirstWins | p2p/foretias-client/src/calendar/mirror.rs:47-59 | whatever is fed in whatever order, the mirror is strictly sorted and holds the first record of each tick number |
| Mirror.SameRecordsSameVector | p2p/foretias-client/src/calendar/mirror.rs:47-59 | sorted mirrors with the same records are equal |
| Mirror.MirrorRebuildsCalendar | p2p/foretias-client/src/calendar/mirror.rs:47-59 | feeding a calendar's records in any order with any duplicates rebuilds the calendar |
| Mirror.QueriesAgree | p2p/core-engine/src/foretias/calendar.rs:274-282 | every mirror query is answered as the calendar answers it |
| Mirror.SanityExactly | p2p/foretias-client/src/calendar/mirror.rs:110-120 | the bytes that are hashed for comparison are equal if and only if the tick numbers are, whatever the records say |
| Mirror.SanityHashExactly | p2p/foretias-client/src/calendar/mirror.rs:86-120 | so are the hashes that peers compare, unless the two inputs collide |
| SnapshotText.LinesAfterPrinted | p2p/core-engine/src/snapshot_suite.rs:170-170 | the lines of a text printed before others come first and are its own |
| SnapshotText.LinesOfJoin | p2p/core-engine/src/snapshot_suite.rs:290-290 | splitting joined pieces into lines gives the lines of each piece |
| SnapshotText.ReadBack | p2p/core-engine/src/snapshot_suite.rs:185-187 | a printed text reads back the same if and only if it has no CRLF, and never longer |
| SnapshotText.ReadBackTrimmed | p2p/core-engine/src/snapshot_signature.rs:147-151 | white space around a block does not change what is read back |
| SnapshotText.TrimOf | p2p/core-engine/src/snapshot_signature.rs:147-151 | trimming gives the one tight text between white space |
| SnapshotText.SpacesExactly | p2p/core-engine/src/snapshot_signature.rs:147-151 | the white space that is trimmed is the twenty-five characters Unicode lists |
| SnapshotText.Recovered | p2p/core-engine/src/snapshot_suite.rs:172-187 | a block read back has the signed text if and only if it is clean: no fence line, no CRLF |
| Snapshot.Find | p2p/core-engine/src/snapshot_suite.rs:173-182 | the first marked line, or none if there is none |
| Snapshot.FindLast | p2p/core-engine/src/snapshot_signature.rs:332-332 | the last marked line, or none |
| Snapshot.BuildSnapshot | p2p/core-engine/src/snapshot_suite.rs:262-291 | the loop prints exactly the specified snapshot, and fails exactly when no key is derived |
| SnapshotProofs.HonestFooterPresentable | p2p/core-engine/src/snapshot_signature.rs:238-259 | signing yields four nonempty words without white space |
| SnapshotProofs.ChecksCompareTexts | p2p/core-engine/src/snapshot_signature.rs:265-324 | each check of a signed snapshot is the equality of one concatenation of canonical texts |
| SnapshotProofs.OneChangeFailsFromThere | p2p/core-engine/src/snapshot_signature.rs:238-324 | changing one canonical block fails its check and every later one and no earlier one; all pass if and only if all are equal |
| SnapshotProofs.BrokenFooterFailsAll | p2p/core-engine/src/snapshot_signature.rs:272-313 | one undecodable field fails all three checks; the key check holds if and only if the footer's key is the passphrase's |
| SnapshotProofs.FooterBindsTexts | p2p/core-engine/src/snapshot_signature.rs:265-324 | two snapshots passing all three checks under one footer have equal canonical input, results text and comments |
| SnapshotProofs.BoundaryMoves | p2p/core-engine/src/snapshot_signature.rs:27-33 | moving text over a block boundary, for any texts, leaves the later checks true: the concatenation is ambiguous |
| SnapshotProofs.ListNotBound | p2p/core-engine/src/snapshot_signature.rs:157-166 | two results and one result with an empty line inside have one canonical text, and so have no results and one blank result |
| SnapshotProofs.ListBound | p2p/core-engine/src/snapshot_signature.rs:157-166 | for lists without empty lines inside, canonical texts are equal if and only if the trimmed results are, no results counting as one blank result |
| SnapshotRoundTrip.FooterRoundTrip | p2p/core-engine/src/snapshot_signature.rs:330-367 | a footer is read back whatever lines stand before it, other SIGNATURES: lines included |
| SnapshotRoundTrip.BlankLinesSkipped | p2p/core-engine/src/snapshot_signature.rs:333-337 | blank lines anywhere behind the title change nothing |
| SnapshotRoundTrip.ParsedFooterIsWhole | p2p/core-engine/src/snapshot_signature.rs:338-366 | a footer is read only if all four lines begin as they should and no field is empty |
| SnapshotRoundTrip.ResultPieceAt | p2p/core-engine/src/snapshot_suite.rs:277-282 | result i is printed under its number between fences |
| SnapshotRoundTrip.DecimalValue | p2p/core-engine/src/snapshot_suite.rs:278-278 | the number is printed in decimal |
| SnapshotRoundTrip.LinesOfPrintout | p2p/core-engine/src/snapshot_suite.rs:262-291 | all lines of a printed snapshot |
| SnapshotRoundTrip.BlockFound | p2p/core-engine/src/snapshot_suite.rs:172-187 | a printed block is found up to the first fence among its own lines |
| SnapshotRoundTrip.ResultTitlesExactly | p2p/core-engine/src/snapshot_suite.rs:190-194 | any line that ends with the word is the title of a result |
| SnapshotRoundTrip.OneIsNotMany | p2p/core-engine/src/snapshot_suite.rs:228-228 | the one result the reader returns is never the canonical text of several |
| SnapshotRoundTrip.NoResultVerdict | p2p/core-engine/src/snapshot_suite.rs:189-205 | without results no title inside the comments can make all checks true |
| SnapshotRoundTrip.RoundTripExactly | p2p/core-engine/src/snapshot_suite.rs:154-229 | read back under its passphrase a built snapshot passes all four checks if and only if it has one result and all blocks are clean |
| SnapshotRoundTrip.TitlesInsideAreClean | p2p/core-engine/src/snapshot_suite.rs:189-217 | any block made of title lines and lines that are no fences, without carriage returns at line ends, is clean |

## Left out

- VerifyRange: takes as preconditions what the C code trusts, that `leaf_count` is at most 64, `n` is a 32-bit integer and no sibling is read beyond the array; outside them the C code is undefined.
- NextPow2: sizes are unbounded here, so the overflow of `size_t` for counts above 2^63 does not occur.
- NoFork: unforgeability is asked of the forward signatures in the presented calendar, not derived from a game; the first record is trusted, as in the source.
- TransportSafety: assumes that the network cannot seal under the session keys; `TransportOverNetwork` proves the same with that derived, for two honest sessions with their own ephemeral keys.
- StepReadTwo: a payload behind message 2 is not limited in length here; the C code opens it into a fixed buffer of 65,535 bytes and leaves the check to the caller.
- StepReadThree: the same for a payload behind message 3.
- Session.constructor: the X25519 key of a session is named by a number; its derivation from the Ed25519 seed by HMAC, and the error codes when that or the wrapping fails, are not modelled.
- TransportAuthenticates: application plaintexts are taken to hold no key material, and the scalars of honest sessions to be used by them alone.
- Stamp: a stamp, a daemon tick and a change of dormancy are atomic steps. The source takes several locks in each, and nothing is said about interleavings inside them.
- Possible: the 64-bit tick and stamp counters do not come round.
- Save: a torn write leaves a file that does not parse, and rename is atomic. JSON itself is not modelled.
- Session: the key encryption key is live throughout, so the wrapping of session secrets is transparent; `PrivKey` proves that a box opens while its key lives. Null pointers are the absent values of the options.
- Conformance of the handshake to the Noise Protocol Framework, revision 34: the source omits the prologue and the hashing of empty payloads. Agreement between the two roles of the source is what is proved.
- Failing primitives inside a tick: a failed key generation or signature uses up a tick number in the source.
- `Chronomatter::from_calendar` and first records of version 0 made without an identity signature.
- Contents of attestations by other time families: only their identity is kept.
- Gates for full signatures, the v2 wire format and `Externalized` builders: no record that requires a full signature passes in the source.
- Committee, epoch, FROST, P-256 and BLAKE3 code, networking, the command line, metrics and configuration.
- The file comparison of `SnapshotSuite` and the listing of approved names: plain I/O.
- Argon2, SHA-256, Ed25519, SLH-DSA, X25519 and ChaCha20-Poly1305 themselves.
- Capacity of the mirror store and its directory of files.
