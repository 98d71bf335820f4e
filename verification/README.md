# CryptoNugget: a verified model of its channels, mesh node and persistence

CryptoNugget is a family of stateful protocols wrapped around AES-256-GCM, HKDF-SHA-256 and SHA-256.
This project models the protocols in Dafny and proves what they promise over whole runs:

- **Wire format and associated data** (`PacketCodec`): packet encoding in wire versions 1, 2 and 3, and
  the three associated-data encodings, with the exact condition under which version 2 is injective.
- **Sliding replay window** (`Bitmaps`, `SlidingWindow`): the `u128` bitmap, shared by the replay channel
  and the mesh node, refines the unbounded set of all accepted sequence numbers.
- **Replay channel** (`ReplayChannel`, `ReplayRuns`): two peers over a network that drops, reorders,
  duplicates and injects packets.
- **Ordered ratchet channel** (`OrderedChannel`, `Snapshot`, `Nugget`, `OrderedRuns`): two peers with
  ratcheting keys, rolling transcripts and encrypted snapshots, over the same network.
- **Mesh node** (`MeshNode`, `MeshHistory`, `MeshRuns`, `MeshSealing`, `MeshObject`): any number of threads
  interleaved at every atomic access and every lock of `seal_realtime` and `open_realtime`.
- **Mesh checkpoints** (`MeshCheckpoint`, `MeshLives`, `MeshRecovery`): the encrypted checkpoint, and lives of a
  node made of starts, concurrent calls, checkpoints at any moment, crashes and restores.
- **Write-ahead log** (`WalJournal`, `WalObject`, `WalRuns`): the hash-chained journal, its recovery at
  every cut byte, and runs with power cuts.
- **Domain separation** (`Domains`): no component takes another's hash input or sealed blob for its own.
- **Dual-slot container** (`DualSlot`, `DualSlotObject`, `DualSlotRuns`): the A/B container, its serialised
  form at every cut byte, and runs with atomic saves, crashes and reloads.

## How to read it

Each component has a specification in functions on values (`Seal`, `Open`, `RecoverFrom`, `Commit`, ...).
The objects the source updates in place are classes (`ReplayWindowChannel`, `CryptoNugget`,
`ChronoMeshNode`, `ChronoWalJournal`, `DualSlotContainer`) whose methods follow the source statement by
statement and are proved to compute exactly that specification, result and whole new state. Runs are
sequences of steps of the specification; the theorems hold for every run.

The primitives are never axiomatised. They are function values, every theorem quantifies over all of
them, and what a theorem needs is a visible hypothesis:

- `Aead.Sound`: what was encrypted decrypts to itself and is one tag longer (`Primitives.SoundAeadExists`
  shows that this can be met);
- `Unforgeable`, `Authentic`, `SlotUnforgeable`: one decryption succeeds only on something an honest
  party encrypted under the same key, nonce and associated data, which the run keeps in a log;
- `CollisionFree`, `Chained`, `DistinctChain`: the hash does not collide, or return to the starting value,
  on the finite set of inputs the statement uses;
- `Separated`: the key chains of the two directions of a channel do not meet at equal positions;
- `RatchetsApart`, `ExpandsApart`: HKDF does not collide on the keys, or the packet identities, a statement uses.

Machine integers are bounded subset types, with wrap-around, saturation and checked overflow written out
where the source has them. Bit operations on `u128` are defined on binary digits.

Where the code and its own documentation disagree the model follows the code, and a lemma shows the case:

- the version 2 associated data is ambiguous for a caller part of length 0x65706F63, whose length field
  reads "epoc" (`AadV2Witness`, `AadV2Agree`); a packet can then be accepted with the wrong caller part under the
  wrong epoch, and the transcripts part (`MimickedRun`, `TranscriptAgreementIff`);
- a failed snapshot export can already have advanced the epoch (`FailedExport`, `FailedExportWitness`);
- `commit_state` does not always spare the last valid slot: after a cut behind B's header it overwrites
  it (`CommitAfterCut`);
- an alteration in the middle of a journal is not always reported: a length field raised past the end of
  the file makes the rest of the log look like a torn tail; every other alteration of a frame before the last is
  reported (`AlterationReportedIff`, `AlteredLengthReportedIff`);
- a journal that goes on after a failed write makes its file unrecoverable (`GoingOnAfterFailedWrite`), or, after a
  torn write, lets later acknowledged frames be dropped without an error (`GoingOnAfterTornWrite`);
- appending a packet its own parser refuses makes the log unrecoverable (`MalformedAppendIffUnrecoverable`);
- the mesh ticket counter wraps: the last ticket is refused, but the one after it is 0 again
  (`WrapRestartsTickets`, `WrapRepeatsIdentity`);
- a checkpoint cannot express a highest sequence of 2^64 - 1 (`RestoreKeepsVerdictsIff`), and a saved epoch
  of 2^64 - 1 is not moved past (`ResumedEpochIsLeast`).

## Model

| member | source | states |
|---|---|---|
| PacketCodec.EncodeOfParsed | src/packet.rs:48-165 | Every byte string the parser accepts, in any of the three wire versions, is exactly the encoding of the packet it parses to. |
| PacketCodec.WireLayout | src/packet.rs:48-80 | Where each field of the three wire versions stands. |
| Words.MostSignificantFirst | src/packet.rs:48-80 | Integers go out most significant byte first. |
| PacketCodec.ParseOfEncoded | src/packet.rs:48-165 | Parsing the encoding of any packet value at all: the fields its version carries, or exactly which error. |
| PacketCodec.RoundTripIff | src/packet.rs:48-165 | A packet survives the round trip if and only if its version is known, its ciphertext holds a tag and it sets no field its version drops. |
| PacketCodec.AadV2Header | src/packet.rs:187-207 | Equal v2 associated data always agree in flags and sequence, whatever the caller part. |
| PacketCodec.AadV2Agree | src/packet.rs:187-207 | Two v2 associated data are equal if and only if all bound inputs are equal, or one caller part mimics an epoch field. |
| PacketCodec.AadV2Injective | src/packet.rs:187-207 | Without a caller part of length 0x65706F63, v2 binds flags, sequence, epoch and the flagged caller part. |
| PacketCodec.AadV2Witness | src/packet.rs:187-207 | For every sequence and non-zero epoch, two different caller parts, one at epoch 0, give equal v2 associated data: the condition is needed. |
| PacketCodec.AadV3Injective | src/packet.rs:209-232 | v3 binds flags, node, epoch, sequence, timestamp, context and the flagged caller part unconditionally. |
| PacketCodec.AadVersionsDisjoint | src/packet.rs:179-239 | No v1, v2 and v3 associated data are ever equal. |
| SlidingWindow.CheckRefinesSet | src/modes/replay.rs:170-185 | The bitmap test gives the verdict of the set of everything accepted: accept, Repetido or FueraDeOrden. |
| SlidingWindow.RecordTracks | src/modes/replay.rs:187-213 | Recording keeps the bitmap equal to the last `size` members of the set, with every bit at or beyond the window zero. |
| SlidingWindow.RunRefinesSet | src/modes/replay.rs:170-213 | For every window of 1 to 128 and every run, bitmap and unbounded set give the same verdicts. |
| SlidingWindow.OnesAndLosses | src/modes/replay.rs:162-168 | In any stretch of the window the one bits and the sequences never accepted add up to its length. |
| Bitmaps.BitOfXorBytes | src/modes/replay.rs:93-100 | XOR of byte strings sets a digit where exactly one of the two has it, and no other. |
| Words.XorZeros | src/modes/replay.rs:93-100 | XOR with zeros changes nothing. |
| ReplayChannel.FailureChangesNothing | src/modes/replay.rs:102-159 | A failed seal or open leaves every field as it was. |
| ReplayChannel.SealOutcome | src/modes/replay.rs:102-131 | When a seal succeeds, which error otherwise, and the packet: flags 0 or 1 by its caller part, under the masked nonce. |
| ReplayChannel.NonceInjective | src/modes/replay.rs:93-100 | Masking is injective: equal nonces under one mask mean equal sequences. |
| ReplayChannel.FirstNonce | src/modes/replay.rs:93-100 | The nonce of sequence 0 is the mask itself. |
| ReplayChannel.NonceDigits | src/modes/replay.rs:93-100 | The first four bytes of the mask stay; each digit of the other eight is flipped exactly where the big-endian sequence has one. |
| ReplayChannel.DerivedApart | src/modes/replay.rs:52-91 | Keys derived for different seeds, contexts or labels differ, unless HKDF collides on the two inputs. |
| ReplayChannel.ReplayWindowChannel.NewWithContext | src/modes/replay.rs:52-91 | Windows outside 1..=128 are refused with ModoInvalido; otherwise the derived keys, masks and an empty window. |
| ReplayChannel.ReplayWindowChannel.ComputeNonce | src/modes/replay.rs:93-100 | The in-place XOR loop computes the masked big-endian sequence. |
| ReplayChannel.ReplayWindowChannel.EnsureSequenceIsNew | src/modes/replay.rs:170-185 | The bit test computes the window verdict that CheckRefinesSet relates to the set. |
| ReplayChannel.ReplayWindowChannel.MarkSeen | src/modes/replay.rs:187-213 | The in-place update is the record step that RecordTracks relates to the set; nothing else changes. |
| ReplayChannel.ReplayWindowChannel.SealBytes | src/modes/replay.rs:102-131 | Result and whole new state of a seal: the sequence advances only on success. |
| ReplayChannel.ReplayWindowChannel.OpenPacket | src/modes/replay.rs:133-159 | Result and whole new state of an open, error by error in the source's order. |
| ReplayChannel.ReplayWindowChannel.MissingInWindowCount | src/modes/replay.rs:162-168 | Reads the count that ExactLossCount shows to be the true loss. |
| ReplayRuns.DeliveredOnceAsSealed | src/modes/replay.rs:133-159 | In every run over an adversarial network each accepted message is the one sealed under its sequence, and no sequence is accepted twice. |
| ReplayRuns.GenuineVerdict | src/modes/replay.rs:133-159 | In every reachable state a genuine packet gets exactly the verdict of the set model, and its message when accepted. |
| ReplayRuns.CallerPart | src/modes/replay.rs:102-156 | A packet sealed without a caller part carries flags 0 and opens with any; one sealed with a caller part carries flags 1 and opens with that one only; window verdicts first, and which error otherwise. |
| ReplayRuns.StrangerRefused | src/modes/replay.rs:133-156 | Any packet the other side has not sealed is refused and changes nothing; which error, by version, window, nonce and caller part. |
| ReplayRuns.ExactLossCount | src/modes/replay.rs:162-168 | In every reachable state the reported loss is the number of never-accepted sequences of the window; the subtraction never saturates and the addition never overflows. |
| ReplayRuns.NoncesDistinct | src/modes/replay.rs:93-121 | Over every run all nonces one channel emits are pairwise distinct, as section 8 of NIST SP 800-38D asks. |
| OrderedChannel.RejectionChangesNothing | src/modes/ordered.rs:146-298 | A rejected seal or open leaves the whole state as it was; an accepted one touches one direction and raises the epoch by at most one. |
| OrderedChannel.SealOutcome | src/modes/ordered.rs:146-203 | When a seal succeeds, which error otherwise, and the packet: flags 0 or 1 by its caller part, bound to sequence and epoch. |
| OrderedChannel.RolesCross | src/modes/ordered.rs:79-112 | The two roles of one seed and context start with crossed keys and transcripts, unblocked, at zero. |
| OrderedChannel.DerivedApart | src/modes/ordered.rs:79-112 | Keys and transcripts derived for different seeds, contexts or labels differ, unless HKDF collides on the two inputs. |
| OrderedChannel.SuccessRatchets | src/modes/ordered.rs:328-344 | After a successful seal or open the direction's key is the HKDF output, for the ratchet's salt and label, over the key before it. |
| OrderedChannel.KeysDistinct | src/modes/ordered.rs:328-344 | No key of a ratchet chain occurs twice, unless HKDF collides on the keys reached or returns the first one. |
| OrderedChannel.LegacyOpen | src/modes/ordered.rs:264-295 | A v1 peer's next packet, written out byte by byte, opens to its message at the receiver's epoch and moves keys, counter and transcript on; with any caller part it is Autenticacion. |
| OrderedChannel.TranscriptInputInjective | src/modes/ordered.rs:301-319 | What is hashed for one packet determines the previous transcript, epoch, sequence, nonce and tag. |
| OrderedChannel.LinkBinds | src/modes/ordered.rs:301-319 | A transcript link carries exactly epoch, sequence, nonce and tag of its packet. |
| PacketCodec.TagEnds | src/modes/ordered.rs:301-319 | The tag that transcripts and digests take is the end of the ciphertext. |
| OrderedChannel.EqualTranscripts | src/modes/ordered.rs:301-319 | Without collisions or a return to the start, equal transcripts mean equal packet histories, counts included. |
| Nugget.CryptoNugget.NewWithContext | src/modes/ordered.rs:79-112 | The two roles start with crossed keys and transcripts, at sequence 0 and epoch 0. |
| Nugget.CryptoNugget.UpdateTranscript | src/modes/ordered.rs:301-319 | Extends one direction's chain by this packet and leaves everything else alone. |
| Nugget.CryptoNugget.MutarClave | src/modes/ordered.rs:328-344 | Ratchets one direction's key once and leaves everything else alone. |
| Nugget.CryptoNugget.CifrarBytesWithAad | src/modes/ordered.rs:146-203 | Result and whole new state of a seal, for every state and error path. |
| Nugget.CryptoNugget.DescifrarBytesWithAad | src/modes/ordered.rs:220-298 | The loop over epoch candidates and the v1 branch: result and whole new state of an open, for every state and error path. |
| Nugget.CryptoNugget.Export | src/persistence.rs:54-81 | Result and new state of a snapshot export; only the epoch can change. |
| Nugget.CryptoNugget.Import | src/persistence.rs:84-110 | A new channel in the imported state, or the import's error. |
| Nugget.CryptoNugget.MarkResumed | src/persistence.rs:113-115 | Lifts the block and nothing else. |
| Snapshot.DecodeOfEncode | src/persistence.rs:128-194 | Every state is decoded from its own encoding, blocked. |
| Snapshot.ImportOfExport | src/persistence.rs:54-110 | Importing an export yields every field, one epoch on, blocked until acknowledged. |
| Snapshot.ImportOfBytes | src/persistence.rs:84-194 | What a snapshot of version 1 or 2, laid out byte by byte, is imported as: every field it carries, blocked, both transcripts zero in version 1. |
| Snapshot.ImportElsewhere | src/persistence.rs:84-110 | A snapshot is refused for every other context and under every other wrap key, where the cipher opens only what was exported. |
| Snapshot.FailedExport | src/persistence.rs:54-81 | A failed export leaves the state alone if and only if the epoch was exhausted; otherwise the epoch has advanced. |
| Snapshot.FailedExportWitness | src/persistence.rs:54-81 | A channel over a context of 2^32 bytes fails every export and advances its epoch each time. |
| Snapshot.ImportedIsBlocked | src/persistence.rs:84-115 | Whatever snapshot is accepted, v1 or v2, neither seals nor opens before `mark_resumed`. |
| OrderedRuns.PrefixDelivery | src/modes/ordered.rs:146-298 | In every single-lineage run, snapshots and restores included, each side has accepted a prefix of what the other sealed, and keys are the initial ones ratcheted once per packet. |
| OrderedRuns.NoKeyReused | src/modes/ordered.rs:146-203 | In every session each packet of a direction is the encryption under the key of its position, and no two of them share a key, unless HKDF fails on the keys used. |
| OrderedRuns.StrangerRefused | src/modes/ordered.rs:220-298 | Any packet but the next one is refused and changes nothing; which error, by block, sequence, version and caller part. |
| OrderedRuns.TranscriptAgreement | src/modes/ordered.rs:301-326 | In every session the sending transcript is the chain over all packets sealed, the receiving one over the first rx_seq of them under the epochs they authenticated with; the two lists agree if and only if no accepted open supplied a mimicking caller part. |
| OrderedRuns.TranscriptAgreementIff | src/modes/ordered.rs:301-326 | Unless the hash fails, the receiving transcript is that of the packets as sealed if and only if no accepted open was mimicked. |
| OrderedRuns.EqualTranscriptsMeanDelivered | src/modes/ordered.rs:301-326 | In every session equal transcripts mean everything sealed was delivered, under the sealing epochs, unless the hash collides or returns to its start. |
| OrderedRuns.EpochAcceptance | src/modes/ordered.rs:225-265 | In every session, for every caller part, the next packet is accepted if and only if epoch and caller part fit at the receiver's epoch or the next, equal or by mimicry, with the resulting epoch. Sealed without a caller part it carries flags 0 and opens with any at those two epochs; sealed with one it carries flags 1 and, away from the critical length, opens with that one only. Otherwise which error. |
| OrderedRuns.MimickedRun | src/modes/ordered.rs:225-298 | A two-step session in which the receiver accepts the message with the wrong caller part under an epoch the sender has never been at, and the transcripts part. |
| OrderedRuns.MimickedRunExists | src/modes/ordered.rs:225-298 | Such sessions exist, with a sound unforgeable cipher and direction keys that never meet. |
| OrderedRuns.EpochsNeverDecrease | src/modes/ordered.rs:284-298 | No run of seals, opens, snapshots and restores lowers an epoch. |
| OrderedRuns.RunKeeps | src/modes/ordered.rs:146-344 | The joint invariant of both peers and the network survives every step of every run. |
| MeshNode.AcceptAgreesWithCheck | src/modes/chrono.rs:275-341 | On any one state the two checks agree, and a packet the second rejects changes nothing. |
| MeshNode.DigestInputInjective | src/modes/chrono.rs:197-212 | Equal digest inputs mean equal node, epoch, sequence, timestamp, nonce and tag. |
| MeshNode.PacketInfoInjective | src/modes/chrono.rs:165-181 | What HKDF expands for a packet determines its node, epoch, sequence and time. |
| MeshNode.KeyAndNonceBind | src/modes/chrono.rs:165-195 | Two packets get one key and nonce if and only if they agree in node, epoch, sequence and time, unless HKDF collides on the two. |
| MeshNode.SealOutcome | src/modes/chrono.rs:215-272 | When a seal succeeds, which error otherwise, and all it leaves: a ticket drawn in any case, the packet folded into the hash on success only, the peers untouched, the packet the encryption under the derived key and nonce with flags 0 or 1 by its caller part. |
| MeshNode.SealedAuthenticates | src/modes/chrono.rs:215-316 | What one node seals every node of the mesh decrypts to the same plaintext. |
| MeshNode.OpenedOrigin | src/modes/chrono.rs:275-341 | A packet that decrypts is field by field one some node sealed, with its plaintext and bound associated data. |
| MeshNode.CallerPart | src/modes/chrono.rs:215-316 | A packet sealed without a caller part opens with any; one sealed with a caller part opens with that one only, if the mesh sealed it once. |
| MeshNode.WrongNonce | src/modes/chrono.rs:297-309 | A packet without the nonce derived for it is refused even if it would decrypt. |
| MeshNode.StrangerRefused | src/modes/chrono.rs:275-325 | Any packet the mesh has not sealed is refused and changes nothing; which error, by version, drift, window and caller part. |
| MeshNode.AcceptCounts | src/modes/chrono.rs:51-53 | An accepted packet is counted for its peer, saturating, and no other peer changes. |
| MeshHistory.LegalTracks | src/modes/chrono.rs:34-78 | After any sequential history, from a fresh or a restored state, every peer's window tracks the set of sequences accepted from it, those before the restore included. |
| MeshHistory.GenuineVerdict | src/modes/chrono.rs:275-341 | A genuine packet opened after any history, from a fresh or a restored state: refused outside the allowed drift, otherwise the verdict of the set of all accepted sequences, and its plaintext when accepted. |
| MeshHistory.NoDoubleAccept | src/modes/chrono.rs:34-78 | No sequential history, together with the one its starting state remembers, accepts one (node, epoch, sequence) twice. |
| MeshHistory.IntegrityIsFold | src/modes/chrono.rs:197-212 | The integrity hash is the XOR of the digests of everything counted, before and after a restore. |
| MeshHistory.FoldAllPermutes | src/modes/chrono.rs:197-212 | That XOR depends only on the multiset of packets, not on their order. |
| MeshHistory.FoldOne | src/modes/chrono.rs:197-212 | The hash over one packet is that packet's digest. |
| MeshHistory.SealRemembered | src/modes/chrono.rs:215-272 | A seal leaves the hash over one more packet exactly when it succeeds, and the windows as they were. |
| MeshRuns.CommitIsAtomic | src/modes/chrono.rs:331-340 | With the unlocked part behind it, the second section alone is the indivisible open. |
| MeshRuns.Linearisable | src/modes/chrono.rs:215-341 | For any threads and any interleaving, in a fresh process or a restored one, there is one sequential history that explains the guarded state and every result, in real-time order. |
| MeshRuns.NeverAcceptedTwice | src/modes/chrono.rs:275-341 | No two completed opens of a process accept the same (node, epoch, sequence), even when both passed the first check. |
| MeshSealing.IntegrityAtRest | src/modes/chrono.rs:197-212 | With no seal between encryption and fold, the hash is the XOR over everything remembered at the start, all sealed and all accepted packets, whatever the interleaving. |
| MeshSealing.EqualIntegrity | src/modes/chrono.rs:197-212 | Two nodes that each accepted exactly what the other sealed hold equal hashes. |
| MeshSealing.SealAlone | src/modes/chrono.rs:215-272 | A seal whose steps are not interleaved leaves exactly the node of the indivisible one, and its packet sealed and folded. |
| MeshSealing.UniqueIdentities | src/modes/chrono.rs:215-272 | Until the counter wraps, no two packets one process seals share (epoch, sequence), however many threads seal and whatever state it started from. |
| MeshSealing.NoKeyAndNonceTwice | src/modes/chrono.rs:165-272 | However many threads seal, until the counter wraps every packet is the encryption under its derived key and nonce, and no two share both, unless HKDF collides on what was expanded. |
| MeshSealing.WrapRestartsTickets | src/modes/chrono.rs:215-225 | The last ticket is refused, but the next thread draws sequence 0 of the same epoch. |
| MeshSealing.WrapRepeatsIdentity | src/modes/chrono.rs:215-272 | Carried on to the encryption, a second packet is sealed under the (epoch, sequence) of the epoch's first one: the condition is needed. |
| MeshSealing.AcceptsGenuineOnly | src/modes/chrono.rs:275-341 | In every run of a process every accepted packet was sealed by a node of the mesh and yields its plaintext. |
| MeshSealing.TrackedExportable | src/modes/chrono.rs:34-78 | A state that tracks accepted packets below the last sequence stores a highest that is Some and never 2^64 - 1. |
| MeshCheckpoint.ListingExists | src/modes/chrono.rs:407-413 | Every peer table has an ascending listing that names each peer exactly once. |
| MeshCheckpoint.ListingUnique | src/modes/chrono.rs:407-413 | It has only one, so the table determines what a checkpoint writes. |
| MeshCheckpoint.PeerLayout | src/modes/chrono.rs:407-413 | Where each field of a peer's entry stands, with 2^64 - 1 for None. |
| MeshCheckpoint.EntryAt | src/modes/chrono.rs:407-413 | Entry i of the table is that of the i-th peer in ascending order. |
| MeshCheckpoint.HeaderFields | src/modes/chrono.rs:400-405 | Where each field of the checkpoint's fixed part stands. |
| MeshCheckpoint.DecodeOfEncodedPeers | src/modes/chrono.rs:407-519 | Decoding the encoded peer table gives it back, receive counts cleared and the sentinel read as None. |
| MeshCheckpoint.RestoreOfExport | src/modes/chrono.rs:393-537 | Restoring an export into any node of the same id and context gives its windows, hash and tickets, past its epoch. |
| MeshCheckpoint.RestoreElsewhere | src/modes/chrono.rs:449-485 | A checkpoint restores if and only if node id, context and wrap key are those it was exported with, and is Autenticacion otherwise, where the cipher opens only what was exported. |
| MeshCheckpoint.RejectedRestore | src/modes/chrono.rs:449-485 | A rejected checkpoint leaves the node as it was. |
| MeshCheckpoint.RestoreKeepsVerdictsIff | src/modes/chrono.rs:407-522 | A restore reproduces the verdict on every packet if and only if no stored highest is the sentinel. |
| MeshCheckpoint.SameFuture | src/modes/chrono.rs:275-341 | From equal windows every open returns the same and leaves equal windows. |
| MeshLives.StartedInv | src/modes/chrono.rs:449-537 | A process started from the newest checkpoint remembers exactly the history that checkpoint was taken of, and a first one nothing. |
| MeshLives.EventKeeps | src/modes/chrono.rs:215-537 | Starts, single thread steps, checkpoints at any moment, restores and crashes all keep what process and disk remember. |
| MeshRecovery.LineageRemembered | src/modes/chrono.rs:393-537 | In every life the process has accepted nothing twice in its whole lineage over all restores, its hash is the XOR over all of it, and no stored highest is None or the sentinel. |
| MeshRecovery.NothingAcceptedAgain | src/modes/chrono.rs:393-537 | Nothing accepted before a checkpoint is accepted by any completed open of any later life, however many crashes, restores and checkpoints come between. |
| MeshRecovery.RestoreKeepsReplayProtection | src/modes/chrono.rs:393-537 | The newest checkpoint of any life restores into every process of the node, which holds the exporter's hash and answers every list of opens, under its own configuration, as the exporter's state would. |
| MeshRecovery.NoIdentityReused | src/modes/chrono.rs:393-537 | Over any number of lives under the discipline, with any number of threads in each, no (epoch, sequence) is sealed twice. |
| MeshRecovery.NoKeyAndNonceTwice | src/modes/chrono.rs:165-537 | Over any number of lives under the discipline no two packets share key and nonce, unless HKDF collides on what was expanded. |
| MeshRecovery.EventIdentities | src/modes/chrono.rs:525-532 | Each event keeps every earlier epoch below the running one and at or below the newest checkpoint's. |
| MeshRecovery.SameCheckpointTwice | src/modes/chrono.rs:525-532 | Two processes that restore one exported checkpoint both succeed, come up past its epoch, and seal their next packets under the same (epoch, sequence): the discipline is needed. |
| MeshRecovery.ResumedEpochIsLeast | src/modes/chrono.rs:525-532 | A restore moves past the saved epoch if and only if it is not the last one, and then to the least epoch past it and not below the current one. |
| MeshObject.ChronoMeshNode.FoldPacketIntoIntegrityHash | src/modes/chrono.rs:197-212 | The in-place XOR loop folds exactly this packet's digest. |
| MeshObject.ChronoMeshNode.Seal | src/modes/chrono.rs:215-272 | Result and whole new state of a seal, tickets drawn even when it fails. |
| MeshObject.ChronoMeshNode.CheckSection | src/modes/chrono.rs:288-294 | The first critical section reads the verdict and changes nothing. |
| MeshObject.ChronoMeshNode.AcceptSection | src/modes/chrono.rs:331-340 | The second critical section: verdict and whole new state. |
| MeshObject.ChronoMeshNode.Open | src/modes/chrono.rs:275-341 | Run alone, the two sections are the indivisible open that histories are made of. |
| MeshObject.ChronoMeshNode.ExportCheckpoint | src/modes/chrono.rs:393-444 | The loop over the peer table, in ascending order, writes the checkpoint of exactly this state. |
| MeshObject.ChronoMeshNode.RestoreCheckpoint | src/modes/chrono.rs:449-537 | The loop over the entries restores exactly the decoded state, or changes nothing. |
| WalJournal.RecoverAtFrame | src/persistence.rs:570-610 | At a whole frame recovery goes on if and only if the chain value is the expected one and the body parses; otherwise which error. |
| WalJournal.RecoverTorn | src/persistence.rs:570-590 | Any proper non-empty prefix of a frame is a torn tail, never an error. |
| WalJournal.RecoverInverse | src/persistence.rs:561-618 | For every accepted byte string, re-encoding the reported packets gives exactly its first `valid_bytes_len` bytes and the reported head. |
| WalJournal.WholeIsGreatest | src/persistence.rs:561-618 | The frames counted as whole end at the greatest frame boundary not past the cut. |
| WalJournal.CutRecovers | src/persistence.rs:561-618 | Every cut of a genuine log recovers its whole frames, ends at the greatest boundary, and reports a torn tail if and only if the cut is no boundary. |
| WalJournal.WholeLogRecoversIff | src/persistence.rs:605-606 | A whole log recovers if and only if every body parses as a packet. |
| WalJournal.RecoverAppended | src/persistence.rs:561-618 | Recovery of a genuine log with anything behind it is the log's packets, then recovery of the rest from the log's head. |
| WalJournal.AcceptsExactly | src/persistence.rs:561-618 | Recovery accepts exactly the chained logs of packets with or without one incomplete frame behind them. |
| WalJournal.AlterationReportedIff | src/persistence.rs:561-618 | Whatever bytes a frame is overwritten with, recovery fails, unless they announce a frame beyond the end of the file or are the last frame made anew around another packet: if and only if, given the hash. |
| WalJournal.AlteredLengthReportedIff | src/persistence.rs:579-602 | A changed length field is IntegridadContextoCorrupta if and only if the frame it announces still fits the file; otherwise that frame and all behind it are dropped without an error. |
| WalJournal.AlteredUnhashed | src/persistence.rs:592-602 | A whole frame whose stored chain value or predecessor does not match is IntegridadContextoCorrupta. |
| WalJournal.AlteredRehashed | src/persistence.rs:592-606 | A frame hashed anew around another body is accepted if and only if it is the last and its body parses, unless the hash collides. |
| WalJournal.ReorderingDetected | src/persistence.rs:592-602 | Frames of a genuine log deleted, swapped or duplicated recover if and only if they form a prefix of it. |
| WalJournal.EqualHeadsEqualLogs | src/persistence.rs:634-645 | Two accepted logs with equal heads hold the same packets and valid bytes, unless the hash collides or yields the genesis value. |
| WalObject.ChronoWalJournal.EncodeAppendFrame | src/persistence.rs:488-504 | The frame, and the head and saturating count it leaves; a too long packet changes nothing. |
| WalJournal.FrameFields | src/persistence.rs:493-499 | Where each part of a frame stands. |
| WalObject.ChronoWalJournal.FromHead | src/persistence.rs:471-476 | A journal resumed at the given head and count. |
| WalObject.ChronoWalJournal.RecoverFromBytes | src/persistence.rs:561-618 | The recovery loop computes the recovery that all the log theorems are about, report or error. |
| WalRuns.AcknowledgedPersist | src/persistence.rs:508-521 | What must survive contains every acknowledged packet in order, and at most one more per power cut. |
| WalRuns.Durability | src/persistence.rs:508-554 | After any run of appends, power cuts, crashes and recoveries, recovery returns exactly what must survive, and the resumed head, count and file match. |
| WalRuns.RecoveryIsIdempotent | src/persistence.rs:525-554 | Recovering the truncated file gives the same report with no torn tail left. |
| WalRuns.MalformedAppendIffUnrecoverable | src/persistence.rs:605-606 | A log of appended packets is recoverable if and only if each of them can be decoded. |
| WalRuns.GoingOnAfterFailedWrite | src/persistence.rs:502-521 | After a write that failed and left nothing, the next frame of the same journal makes recovery fail, unless the hash happens to map back to the old head. |
| WalRuns.GoingOnAfterTornWrite | src/persistence.rs:502-521 | After a write that stopped inside its frame, everything written later, acknowledged or not, is dropped as a torn tail while too short to complete that frame, and makes recovery fail once it is not. |
| DualSlot.OpenOfSealed | src/persistence.rs:333-381 | A sealed slot starts with its generation and nonce and opens to its generation and payload. |
| DualSlot.FieldsA | src/persistence.rs:279-284 | Where slot A and its header stand in the image. |
| DualSlot.FieldsB | src/persistence.rs:285-287 | Where slot B and its header stand in the image. |
| DualSlot.OtherSealingsAreNotSlots | src/persistence.rs:335-337 | No snapshot or checkpoint sealed under the same wrap key carries a slot's associated data. |
| Domains.HashInputsApart | src/persistence.rs:634-645 | Transcripts, packet digests and log frames never hash the same input. |
| Domains.SnapshotsAreNotCheckpoints | src/persistence.rs:118-126 | A snapshot and a checkpoint under one wrap key never carry the same associated data. |
| DualSlot.RecoversNewestUsable | src/persistence.rs:249-272 | Recovery fails if and only if no slot authenticates at its generation, and returns the newest one that does. |
| DualSlot.CommitIsRecovered | src/persistence.rs:228-246 | A commit is what recovery then returns; slot A is left alone if and only if its generation is strictly larger; a failed commit changes nothing. |
| DualSlot.DecodeOfCut | src/persistence.rs:291-331 | What every cut of an image, and an image with anything behind it, decodes to. |
| DualSlot.EncodeOfComplete | src/persistence.rs:275-331 | Every complete byte string starts with the image of what it decodes to. |
| DualSlot.EncodeOfDecoded | src/persistence.rs:291-331 | Every accepted byte string is a cut of some image, possibly with something behind it. |
| DualSlotObject.DualSlotContainer.CommitState | src/persistence.rs:228-246 | Result and whole new state of a commit. |
| DualSlotObject.DualSlotContainer.RecoverLatestValid | src/persistence.rs:249-272 | The loop over the two slots computes the recovery RecoversNewestUsable characterises. |
| DualSlotObject.DualSlotContainer.ToBytes | src/persistence.rs:275-288 | The image of the container, or AadDemasiadoLargo. |
| DualSlotObject.DualSlotContainer.FromBytes | src/persistence.rs:291-331 | A new container in the decoded state, or the decoding error. |
| DualSlotRuns.CommitMatches | src/persistence.rs:228-246 | A successful commit makes the next generation and keeps the odd newest one in A and the even one in B. |
| DualSlotRuns.RecoversNewest | src/persistence.rs:249-272 | After n commits from empty, recovery returns generation n with its payload. |
| DualSlotRuns.DamageFallsBack | src/persistence.rs:228-272 | Whatever is done to the newest slot, unless it still authenticates generation n - 1 is recovered, when there is one. |
| DualSlotRuns.CutRecovers | src/persistence.rs:291-331 | Every cut that leaves slot A complete recovers A's generation, the whole image the newest one, a shorter cut is PaqueteCorrupto. |
| DualSlotRuns.CommitAfterCut | src/persistence.rs:228-331 | The next commit spares the rescued generation if and only if it is the newest one or the cut was before the end of B's header; otherwise it overwrites the only valid slot. |
| DualSlotRuns.SavedSurvives | src/persistence.rs:390-427 | After any run of commits, atomic saves, crashes and reloads, memory recovers its newest commit and a reload recovers the newest saved one. |
| DualSlotRuns.RecoversOnlyCommitted | src/persistence.rs:357-381 | Whatever container is presented, a recovered payload was committed at that generation in the run. |
| DualSlotRuns.RecoversThePayloadOfThatCommit | src/persistence.rs:357-381 | In one process the payload recovered at generation g is that of the g-th commit. |

## Left out

- The insides of AES-256-GCM, HKDF, SHA-256, base64 and the random generator: function values or parameters.
- Clocks: the time a seal or an open reads is a parameter of the call.
- `src/ffi.rs` and `bindings/`: pointer handling and wrappers around the modelled calls.
- File system calls: a save leaves the old or the new image, an append some prefix of the new frame, and a truncation happened or did not; a failed append is treated as a crash followed by recovery.
- Zeroisation, `Drop`, `Debug`, mutex poisoning and constant-time comparison as a timing property.
- `src/seed.rs`, `src/error.rs`, `src/modes/mod.rs`, `src/modes/envelope.rs`, invitation links, fingerprints, UTF-8 wrappers: they would only add easy members.
- `open_persisted_record` and `decrypt_recovered_wal`: stateless decryptions of packets whose order and integrity the log theorems already give.
- Two running copies of one snapshot or checkpoint: excluded by the run hypotheses, and shown to reuse identities (`SameCheckpointTwice`).
- WalRuns.Durability: needs every appended packet to be decodable and the file to stay below 2^64 bytes; MalformedAppendIffUnrecoverable shows the first to be needed.
- ReplayRuns.NoncesDistinct: says nothing about nonces of two channels under one key, which the source keeps apart by deriving a key for each direction.
- A restore concurrent with seals or opens on the same node: a restore happens at the start of a process or while none of its threads is inside a call.
- MeshRecovery.NoIdentityReused: needs the discipline stated with it (a checkpoint after each start and before the first seal, the newest one restored, no epoch or ticket exhausted); SameCheckpointTwice and WrapRepeatsIdentity show identities that repeat without it.
- MeshRecovery.NothingAcceptedAgain: says nothing about packets accepted after the newest checkpoint and lost with a crash; the restored state has no trace of them.
- WalJournal.AlterationReportedIff: is about one frame overwritten in place by as many bytes; frames moved, repeated or removed are ReorderingDetected's, cuts CutRecovers', and any other two accepted logs EqualHeadsEqualLogs'.
- WalRuns.GoingOnAfterTornWrite: covers a write that stopped behind the frame's length field; one that stopped earlier leaves a length that is read out of the mixture.
- MeshNode.CallerPart: supposes that the mesh sealed the packet once, which NoIdentityReused gives for each node under its discipline.
