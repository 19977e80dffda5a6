# Verified model of the messenger backend

A Dafny model of the parts of the messenger backend whose correctness is not visible from one
function: the Key Transparency log, the pre-key store, mailbox delivery, sealed sends, token
issuance, account recovery, the sticker catalog, the rate limiter and two canonical encodings.
`dafny verify dfyconfig.toml` checks all of it.

| module | models |
|---|---|
| `Bytes` | byte strings, digests, big-endian numbers, collisions |
| `MerkleTree` | the RFC 6962 tree: split, roots, audit paths and their verifier (sections 2.1 and 2.1.1 of RFC 6962) |
| `KeyTransparency` | the append-only leaf table, signed heads, and the proofs of a bundle built while others append |
| `SignedPrekeys` | a device's signed pre-keys and hybrid identity, and the bundle served from them |
| `SignedPrekeyRuns` | the same uploads statement by statement, in any interleaving |
| `OneTimeKeys` | the two pools of one-time pre-keys under every interleaving |
| `Admission` | limits checked before and charged after, under overlap |
| `Delivery` | dispatch of an envelope to mailbox streams, with a fault possible at every call |
| `DeliveryOnce` | how often a message is written when its calls run beside each other |
| `SealedSend` | the delivery tag around a sealed dispatch |
| `TokenIssuance` | the hourly cap and the three-attempt reserve loop of many replicas |
| `AccountRecovery` | the write-once recovery key, freshness and cooldown |
| `StickerManifest` | the manifest encoding, a reader for it, and pack identity |
| `StickerPacks` | manifest validation and the pack table |
| `StickerCatalog` | page cursor, one page, and walks over the catalog |
| `RateLimiter` | the sliding window against the history of accepted events |
| `FederationEnvelope` | the escaped seven-field join |

How to read it:

- Hash functions and signature schemes are function values given as parameters, so every result
  holds for all of them. A binding result reads "equal, or these two inputs have one hash", and the
  two inputs are computed by a ghost function.
- A service that other requests run beside is a state machine: `Step` is one statement of some
  handler, `Run` is any sequence of steps, and the results are about every run. Faults, lost replies
  and expiry are steps or parts of steps. A step that is not enabled changes nothing.
- Code that updates state in place is a class whose methods are proved equal to the functions the
  lemmas are about.
- Clocks, fault patterns and what other requests do meanwhile are parameters.

Some properties one might expect do not hold of the code as it is. For each of them there is a
concrete counterexample and the exact condition under which the property does hold:

| property | fails | holds exactly when |
|---|---|---|
| a leaf hash names one device and key | `LeafInputIsAmbiguous` | the key lengths agree: `LeafInputNamesEntry` |
| stored hybrid signatures verify when requests overlap | `OverlapServesARefusedBundle` | a rotation or Kyber upload carries no hybrid signature or finds the hybrid identity it read (`OverlappedRotation`, `OverlappedKyberUpload`); an identity upload finds the keys its kept signatures are over or an inactive device (`OverlappedHybridUpload`); for all bundles of a run, when each update that landed did: `EveryBundleAccepted` |
| a replacing upload stores all its keys | `ReplaceWithReusedIdsStoresNothing`, `DuplicateIdDropsAKey` | no id of a row the device still has is reused and no two different keys of the upload share an id: `ReplaceStoresAllKeys` |
| a replay answer to a sealed send means its envelope was dispatched | `OverlappingSendsCanLoseTheEnvelope`, `FailedUnmarkLosesTheRetry` | where the cache answers every check and no mark expires: no other send of the tag is under way and no unmark of it failed: `ReplayIsRightUnlessUnderWay` |
| recoveries are seven days apart | `OverlappingRecoveriesAreNotApart` | the later is verified after the earlier is complete: `RecoveriesAreApart`; that one claim recovers at most once holds in every run: `ClaimRecoversOnce` |
| an address an account has never changes | `SetupReplacesAnAddress` | it began without an address or with a recovery key, or has no key yet, or its key's Ed25519 half is that address: `RecoveryKeyIsWrittenOnce` |
| a message is written at most once however often it is sent | `OverlappingCallsWriteTwice`, `LostMarkWritesTwice` | where no call for it meets a dedup fault, expiry, lost reply, failed write or blocked sender: each duplicate check met no other call for it in flight and unmarked: `WrittenOnceExactly` |

Two limits are passed by a known amount. Each bound below holds in every run and some run reaches it.

| limit | bound with k requests between check and charge | reached |
|---|---|---|
| 50 fetches with one-time keys per hour | 49 + k fetches and, over n devices each, 2n(49 + k) keys: `DrainUnderOverlap` | `DrainBoundIsReached`; with k = n = 1 that is 50 fetches and 100 keys |
| 1000 stored keys of a kind | 1000 + 200(k - 1), or what the device started with if more: `UploadsUnderOverlap` | `UploadBoundIsReached` |

Where a comment and the code differ the model follows the code. The comment on the drain threshold
speaks of one-time keys handed out; the code counts fetches, and one fetch hands out up to two keys
of each device it covers. The comment on the ceiling of stored
one-time keys speaks of what a device may hold; the code checks before it inserts, so overlapping
uploads can pass it by what they carry (`Admission.UploadsUnderOverlap`). The comment on the pack
upsert says the summary columns cannot differ between two manifests of one id; that is proved up to
a hash collision.

## Model

| member | source | states |
|---|---|---|
| `MerkleTree.SplitIsTheUniquePower` | key-service/src/kt.rs:62-70 | For two or more leaves the split is the one power of two `k` with `k < n <= 2k`, both directions |
| `MerkleTree.ComputeSplit` | key-service/src/kt.rs:63-70 | The doubling loop computes that split, and 0 below two leaves |
| `MerkleTree.PairUpKeepsRoot` | key-service/src/kt.rs:72-84 | Hashing neighbours in pairs and carrying an odd last node up leaves the root unchanged |
| `MerkleTree.RootIsLevelRoot` | key-service/src/kt.rs:72-84 | The recursive root is the root of a tree built level by level with no split point, for every log |
| `MerkleTree.InclusionCompleteness` | key-service/src/kt.rs:90-139 | A proof is generated for exactly the positions of the log, and it verifies against the root |
| `MerkleTree.PathLengthBound` | key-service/src/kt.rs:105-120 | No audit path is longer than the ceiling of log2 of the log size, and the first one is exactly that long |
| `MerkleTree.InclusionSoundness` | key-service/src/kt.rs:126-165 | A proof of any length accepted against a log's size and root proves the log's own leaf, or two inputs with one hash are computed from it |
| `MerkleTree.NodeInputInjective` | key-service/src/kt.rs:50-56 | A node's hash input names both children |
| `MerkleTree.RootBindsLog` | key-service/src/kt.rs:26-84 | One root commits to one log of tagged leaves, in length and leaf by leaf, or a collision is computed |
| `KeyTransparency.EntriesAreTagged` | key-service/src/kt.rs:26-56 | Leaf inputs begin with 0x00 or 0x02 by kind, so none can be read as a node input |
| `KeyTransparency.LeafInputNamesEntry` | key-service/src/kt.rs:26-44 | A leaf input names kind, device and key exactly when the key lengths agree; without that it names the kind and the concatenation |
| `KeyTransparency.LeafInputIsAmbiguous` | key-service/src/kt.rs:26-33 | Two different devices with keys of different lengths can share one leaf |
| `KeyTransparency.TreeHeadIsInjective` | key-service/src/kt.rs:171-179 | The signed bytes of a head name its size and root |
| `KeyTransparency.TreeHeadRoundTrip` | key-service/src/kt.rs:171-179 | A reader of the signed bytes, after the label, gets the size and the root back |
| `KeyTransparency.HeadCommitsToLog` | key-service/src/kt.rs:171-179 | One signed head commits to one log, or a collision is computed |
| `KeyTransparency.EnsureLeafStep` | key-service/src/kt.rs:206-258 | One append transaction: the answered position holds the requested hash and is the newest of its series, no old row changes, positions stay 0..n-1, neighbours of a series differ |
| `KeyTransparency.EnsureLeafIsIdempotent` | key-service/src/kt.rs:206-258 | Asking again for the newest leaf of a series changes nothing and answers the same position |
| `KeyTransparency.OrderIsIdentity` | key-service/src/kt.rs:260-275 | Reading the leaves by tree index gives them in the order they were appended |
| `KeyTransparency.RunKeepsLog` | key-service/src/kt.rs:189-258 | The log invariant after every run of appends, and every earlier log is a prefix |
| `KeyTransparency.RunEntriesIsLog` | key-service/src/kt.rs:189-275 | After any run the table is the log of the appended entries, row by row with device, kind and hash, and its leaves in tree order are their hashes |
| `KeyTransparency.AcceptedProofMeansLogged` | key-service/src/kt.rs:126-275 | End to end over every run: an accepted proof of a device's key shows that entry in the log at that position, or a collision is computed |
| `KeyTransparency.SnapshotProofs` | key-service/src/kt.rs:348-411 | A snapshot yields proofs exactly when it holds every asked position; each proves its own leaf and all share one size and root; the delegated head is over that size and root with the signer's key id and signature, and absent exactly without a signer or when it refuses |
| `KeyTransparency.KtLeaves.Ensure` | key-service/src/kt.rs:206-258 | The locked transaction against its specification, keeping the log invariant |
| `KeyTransparency.KtLeaves.BuildProofs` | key-service/src/kt.rs:300-346 | With any appends of others between the two inserts and before the snapshot, a path is always found, both proofs verify for the device's own rows of each kind and share one size, root and signature, and the delegated head is over just that size and root |
| `SignedPrekeys.MessagesAreInjective` | crates/construct-crypto/src/pqc/hybrid.rs:61-67 | A sign-message names its suite and its key |
| `SignedPrekeys.KyberMessagesAreInjective` | crates/construct-crypto/src/pqc/hybrid.rs:79-84 | A Kyber sign-message names its time and its key |
| `SignedPrekeys.PrekeyMessageRoundTrip` | crates/construct-crypto/src/pqc/hybrid.rs:61-67 | A reader of a sign-message gets the suite and the key back |
| `SignedPrekeys.KyberMessageRoundTrip` | crates/construct-crypto/src/pqc/hybrid.rs:79-84 | A reader of a Kyber sign-message gets the time and the key back |
| `SignedPrekeys.RotationAccepted` | key-service/src/core.rs:1322-1395 | A rotation is accepted exactly when the device is active and signed the key and a hybrid signature is absent or good under the stored identity; then just key, signatures and epoch change |
| `SignedPrekeys.KyberUploadAccepted` | key-service/src/core.rs:206-259 | A Kyber upload is accepted exactly when the device is active, the key has 1568 bytes, was made at most 30 days ago and at most a day ahead, is signed by the device, and a hybrid signature is absent or good; then it is stored with the signed time |
| `SignedPrekeys.KyberRefusalIsTrue` | key-service/src/core.rs:206-259 | Each refusal of a Kyber upload is true of what was sent |
| `SignedPrekeys.IdentityAccepted` | key-service/src/core.rs:1139-1285 | A hybrid identity is accepted exactly when it has its size and an active device cross-signed it; it is stored with each offered signature that is good over the stored key and without the others |
| `SignedPrekeys.IdentityRefusalIsTrue` | key-service/src/core.rs:1139-1180 | Each refusal of a hybrid identity is true of what was sent |
| `SignedPrekeys.TransactionAccepted` | key-service/src/main.rs:736-794 | The keys of one request are accepted exactly when each is, and then just what was sent has changed |
| `SignedPrekeys.HandlerExactly` | key-service/src/main.rs:884-956 | What each handler answers and which row it leaves, for every outcome of its transaction and its identity |
| `SignedPrekeys.KyberTimeSurvives` | key-service/src/core.rs:206-236 | An accepted creation time fits the signed column, so a reader sees the time that was signed |
| `SignedPrekeys.UploadKyberKeepsConsistent` | key-service/src/core.rs:1010-1073 | A Kyber upload stores its key, leaves the classic key alone and keeps the stored hybrid signatures valid, and apart from them the classic ones |
| `SignedPrekeys.TransactionKeepsConsistent` | key-service/src/main.rs:736-794 | Both signed keys in one transaction keep the hybrid signatures valid, and apart from them the classic ones |
| `SignedPrekeys.DeviceTable.StoreSignedKeys` | key-service/src/main.rs:908-956 | The transaction of both handlers: a refusal of either key leaves the row exactly as it was |
| `SignedPrekeys.DeviceTable.Handler` | key-service/src/main.rs:884-956 | Each handler step by step, an empty rotation key refused first: a rotation that answers an error wrote nothing, so a refused Kyber key leaves the classic key unchanged; an accepted one stores its key and moves each epoch by one |
| `SignedPrekeys.HandleKeepsConsistent` | key-service/src/core.rs:1125-1285 | Either handler, hybrid identity upload included, keeps cross-signature and both hybrid signatures valid, and apart from them both Ed25519 signatures, which an old row may lack |
| `SignedPrekeys.RunKeepsConsistent` | key-service/src/core.rs:1321-1395 | The same after every run of handlers |
| `SignedPrekeys.ServedBundleIsAccepted` | key-service/src/core.rs:362-528 | After every run no hybrid signature in the served bundle is one a peer would refuse, and none at all if the first row's classic signatures verify |
| `SignedPrekeys.StoredKyberWasInTime` | key-service/src/core.rs:222-229 | Over every run each Kyber key a handler stored was at most 30 days old and at most a day ahead when it was stored |
| `SignedPrekeys.OverlappedRotation` | key-service/src/core.rs:1321-1395 | A rotation whose update meets a row changed since it was read stays consistent exactly when it carries no hybrid signature or the hybrid identity is unchanged |
| `SignedPrekeys.OverlappedKyberUpload` | key-service/src/core.rs:1010-1073 | The same condition for a Kyber upload |
| `SignedPrekeys.OverlappedHybridUpload` | key-service/src/core.rs:1139-1285 | A hybrid identity upload that overlaps others stays consistent exactly when the device is no longer active or each signature it keeps is over the key still stored |
| `SignedPrekeyRuns.UpdateIsTransaction` | key-service/src/main.rs:736-794 | With nothing between its read and its update, a request of the runs below is the transaction of the handlers |
| `SignedPrekeyRuns.ReadThenWrite` | key-service/src/core.rs:1322-1395 | An update works on the row of its own moment with what the request read in its; a refused one leaves the row |
| `SignedPrekeyRuns.UpdateIsRight` | key-service/src/core.rs:1322-1395 | One late update of a row whose hybrid signatures verify leaves them so exactly when what it checked against is still stored |
| `SignedPrekeyRuns.EveryBundleAccepted` | key-service/src/core.rs:1139-1285 | Over every interleaving of the reads and updates of any number of requests: peers accept the hybrid signatures of the bundles of all moments exactly when each update that landed was undisturbed, and the classic ones in any case |
| `SignedPrekeyRuns.StoredKyberInTime` | key-service/src/core.rs:222-229 | The same over every interleaving, by the clock the request read |
| `SignedPrekeys.EchoSignsOneThing` | key-service/src/core.rs:238-259 | The scheme of the counterexample meets the assumption of the exact conditions: a signature is good for one key and one message |
| `SignedPrekeys.OverlapServesARefusedBundle` | key-service/src/core.rs:1321-1395 | Under that scheme a rotation the handler accepts, overlapping an identity upload, can leave a bundle every peer refuses |
| `OneTimeKeys.StepKeeps` | key-service/src/core.rs:424-478 | Every statement of upload, replace, fetch and sweep keeps the pool invariant |
| `OneTimeKeys.RunKeeps` | key-service/src/core.rs:888-945 | The pool invariant after every interleaving |
| `OneTimeKeys.RetireTouches` | key-service/src/core.rs:892-906 | A replacing update expires the device's active rows and touches no other device's row and no expired one |
| `OneTimeKeys.FinishTouches` | key-service/src/core.rs:427-478 | A fetch deletes its classic row, or expires its Kyber row, and touches no other |
| `OneTimeKeys.SweepTouches` | key-service/src/core.rs:1653-1679 | The sweep removes exactly the rows that expired more than 48 hours ago |
| `OneTimeKeys.InsertTouches` | key-service/src/core.rs:913-945 | An insert adds one active row stamped with the clock unless a row of the device holds the id, and touches no other |
| `OneTimeKeys.UploadTouches` | key-service/src/core.rs:888-945 | After an upload every row of another device is as it was, and no row is removed or given another key |
| `OneTimeKeys.RetiredWereNamed` | key-service/src/core.rs:892-906 | Over every run a retired row is of a device that some replacing upload named |
| `OneTimeKeys.UploadIsItsSteps` | key-service/src/core.rs:888-945 | An upload is its replacing update and one insert for each key |
| `OneTimeKeys.Conservation` | key-service/src/core.rs:1653-1679 | Inserted rows = active + expired + handed out and deleted + swept |
| `OneTimeKeys.ExpiredRowsAre` | key-service/src/core.rs:1653-1679 | The expired rows are those retired or handed out and not yet deleted or swept; in the classic pool, the retired ones not yet swept |
| `OneTimeKeys.OneTimeKeysOverEveryRun` | key-service/src/core.rs:424-478 | Over every interleaving: conservation, with the expired classic rows exactly the retired and unswept ones; each row in at most one bundle and as it was inserted, a retired row in none, a swept row retired or handed out before |
| `OneTimeKeys.HistoryOnlyGrows` | key-service/src/core.rs:424-478 | Nothing a run inserted, handed out, retired or swept is forgotten by what follows |
| `OneTimeKeys.HandedKeysPassedTheirUpload` | key-service/src/core.rs:836-887 | Whatever check every upload passed, every handed-out key passes |
| `OneTimeKeys.FetchFindsAKey` | key-service/src/core.rs:427-445 | A fetch finds a key exactly when an active row of the device is not locked by another, and the row found is the oldest of those |
| `OneTimeKeys.UploadLeavesActive` | key-service/src/core.rs:888-945 | The ids active after an upload: what was active (nothing, if it replaces) and the new ids no row of the device holds |
| `OneTimeKeys.UploadLeavesKeys` | key-service/src/core.rs:888-945 | Which keys are active after an upload: what was active (nothing, if it replaces) and each key that is the first of its id in the upload and whose id no row of the device holds |
| `OneTimeKeys.ReplaceStoresAllKeys` | key-service/src/core.rs:888-945 | A replacing upload leaves every one of its keys active exactly when no two different keys of it share an id and it reuses no id the device's rows still hold |
| `OneTimeKeys.DuplicateIdDropsAKey` | key-service/src/core.rs:913-945 | Of two different keys sent under one id only the first is stored, even in an empty pool |
| `OneTimeKeys.ReplaceWithReusedIdsStoresNothing` | key-service/src/core.rs:888-945 | A device that uploads keys and then replaces its pool with keys numbered the same way is left with no active key, whatever the keys and whatever it held |
| `OneTimeKeys.SweepCounts` | key-service/src/core.rs:1653-1679 | The sweep removes no active row and changes none |
| `OneTimeKeys.OneTimeKeyTable.Upload` | key-service/src/core.rs:888-965 | Retire, then the insert loop, against the specification; answers the active count |
| `OneTimeKeys.OneTimeKeyTable.Fetch` | key-service/src/core.rs:634-689 | The oldest eligible key, taken as lock and take; none exactly when no row is eligible |
| `OneTimeKeys.OneTimeKeyTable.SweepExpired` | key-service/src/core.rs:1653-1679 | Answers the number of rows removed and keeps the active ones |
| `Admission.DrainStepKeeps` | key-service/src/main.rs:291-321 | Counter and running fetches stay within the threshold and the overlap, and every key handed out is a counted fetch's or a running one's |
| `Admission.NothingTakenNothingCounted` | key-service/src/main.rs:383-414 | A fetch that takes no key is not counted |
| `Admission.DrainUnderOverlap` | key-service/src/main.rs:291-414 | With at most k fetches between check and record, over n devices each, a window counts at most 49 + k fetches and hands out at most 2n keys for each |
| `Admission.DrainBoundIsReached` | key-service/src/main.rs:1098-1219 | For every n and k some run counts 49 + k fetches and hands out 2n(49 + k) keys |
| `Admission.GuardIsPerKind` | key-service/src/core.rs:796-817 | The upload guard asks of each kind at most 200 new keys and, unless what is held is replaced, at most 1000 in all; more than 200 is the first complaint |
| `Admission.UploadStepKeeps` | key-service/src/core.rs:888-945 | What is active and what running uploads can still add stay within the ceiling plus one request for each further upload; replacing uploads retire between their check and their inserts |
| `Admission.UploadsUnderOverlap` | key-service/src/core.rs:796-817 | With at most k uploads under way, replacing ones among them, a device holds at most 1000 + 200(k - 1) active keys of a kind, or as many as it started with if that is more |
| `Admission.ReplaceLeavesItsKeys` | key-service/src/core.rs:888-945 | A replacing upload that meets no other leaves exactly the keys it stored, whatever was held |
| `Admission.UploadBoundIsReached` | key-service/src/core.rs:796-817 | For every k some run reaches that number |
| `Delivery.DedupInputNamesDelivery` | crates/construct-queue/src/dedup.rs:1-33 | Two deliveries share a dedup input exactly when sender, recipient, device and message id agree |
| `Delivery.DedupInputRoundTrip` | crates/construct-queue/src/dedup.rs:19-29 | Read field by field, the dedup input is sender, recipient, device and message id, and no more |
| `Delivery.SameKeySameDelivery` | crates/construct-queue/src/dedup.rs:1-33 | Envelopes under one dedup key are one delivery, or a collision |
| `Delivery.SelectTargets` | messaging-service/src/core.rs:171-200 | A named active device gets the only copy; otherwise every active device, an unknown name being reported |
| `Delivery.OkMeansWritten` | crates/construct-queue/src/lib.rs:411-492 | A mailbox write answers Ok only if an entry landed; without a lost reply, exactly then |
| `Delivery.WriteExactly` | crates/construct-queue/src/lib.rs:426-492 | Which streams have the entry after a write, each once if no device is named twice, and exactly when it answers Ok |
| `Delivery.WriteToStreams` | crates/construct-queue/src/lib.rs:426-492 | The fan-out loop against that, stream by stream |
| `Delivery.WriteLeavesEntry` | messaging-service/src/core.rs:202-309 | A write that goes on to the dedup mark left an entry, and no earlier entry is lost |
| `Delivery.StepKeepsSafe` | messaging-service/src/core.rs:202-309 | Every step of every call keeps: a mark, a call past its write and an Ok all stand for an entry |
| `Delivery.DroppedMeansBlocked` | messaging-service/src/core.rs:217-309 | A call dropped with Ok had its sender reported blocked |
| `Delivery.NoAckWithoutWrite` | messaging-service/src/core.rs:217-309 | For every interleaving, every fault pattern and any expiry, a call answered Ok has an entry under its dedup key or its sender was blocked |
| `Delivery.EntriesAreWhereTheyBelong` | messaging-service/src/core.rs:273-296 | In every run each entry is in the recipient's own stream or that of a device its envelope was routed to, and one write puts it in all of those that no fault kept it from |
| `Delivery.BlockedIsNotWritten` | messaging-service/src/core.rs:256-275 | In every run a user message whose sender is found blocked is dropped, and a dropped call has written nothing |
| `Delivery.DispatchExactly` | messaging-service/src/core.rs:217-309 | What one call writes, marks and answers, for each kind of message and each outcome it meets |
| `Delivery.StepsAreDispatch` | messaging-service/src/core.rs:217-309 | The steps of one call with nothing in between are its dispatch |
| `DeliveryOnce.ApartCallsWriteOnce` | messaging-service/src/core.rs:217-309 | Among any interleaved calls for other keys, with senders blocked and writes failing: a key whose calls meet no dedup fault, expiry or lost reply, each checked while no other is in flight unmarked, is written at most once, and once when a call for it was accepted |
| `DeliveryOnce.StepWritesOnce` | messaging-service/src/core.rs:217-309 | Every step keeps that |
| `DeliveryOnce.RunAccounted` | messaging-service/src/core.rs:217-309 | Writes made and still to be made are together the duplicate checks that found the key unmarked |
| `DeliveryOnce.WrittenOnceExactly` | messaging-service/src/core.rs:217-309 | With no fault and no blocked sender for the key and every write of it landing, once no call for it is in flight it is written exactly as often as a check found it unmarked; that is at most once if and only if each check met no other call for it in flight and unmarked |
| `DeliveryOnce.OverlappingCallsWriteTwice` | messaging-service/src/core.rs:217-309 | Two calls for one message that are both checked before either writes, with nothing failing, write it twice |
| `DeliveryOnce.LostMarkWritesTwice` | messaging-service/src/core.rs:217-309 | So do two calls one after the other whose marks are lost |
| `Delivery.MessageQueue.DispatchEnvelope` | messaging-service/src/core.rs:202-309 | The dispatch with its early returns equals its specification, keeps marks standing for entries, and puts entries in just the streams they belong in |
| `Delivery.RetriesWriteOnce` | messaging-service/src/core.rs:217-309 | Over any sequence of calls with no dedup fault, expiry or lost reply for a key, that key is written once if some call for it was accepted and never otherwise |
| `SealedSend.StepKeeps` | messaging-service/src/envelope.rs:462-527 | Every step keeps: a marked tag was dispatched, is under way or was left by a failed unmark |
| `SealedSend.SuccessIsExplained` | messaging-service/src/envelope.rs:462-527 | In every run a success is the send's own dispatch, or a replay of such a tag |
| `SealedSend.ReplayIsRightUnlessUnderWay` | messaging-service/src/spent_tag.rs:50-119 | With a cache that answers every check, no expiry and any interleaving, a replay answer is right exactly when no other send of that tag is under way and no unmark of it failed |
| `SealedSend.OverlappingSendsCanLoseTheEnvelope` | messaging-service/src/envelope.rs:462-527 | Two overlapping sends of one tag: the second is answered as a success and the first then fails |
| `SealedSend.FailedUnmarkLosesTheRetry` | messaging-service/src/envelope.rs:512-527 | A failed dispatch whose unmark is lost: the retry is answered as a success though nothing was dispatched |
| `SealedSend.SealedDoor.DispatchSealed` | messaging-service/src/envelope.rs:462-527 | Mark, dispatch and unmark in the source's order equal the steps of one send |
| `SealedSend.SendAllComesTo` | messaging-service/src/envelope.rs:462-527 | What one uninterrupted send comes to, marks and answer, for every cache and dispatch outcome |
| `SealedSend.SealedSendsInOrder` | messaging-service/src/envelope.rs:462-527 | Sends one after the other with a reachable cache: a success means the tag was dispatched Ok, and a tag never dispatched Ok is tried again on every retry |
| `TokenIssuance.EffectiveCap` | identity-service/src/main.rs:53-75 | The cap never exceeds the full one, a young account never gets more than the young cap, and it is below the full one only for a young account |
| `TokenIssuance.Grant` | identity-service/src/main.rs:77-87 | The most of a batch that fits under the cap |
| `TokenIssuance.FailedReserveWasOvertaken` | identity-service/src/main.rs:1298-1323 | A reservation that fails lost to one made since its request read the counter, also across the hour |
| `TokenIssuance.StepKeeps` | identity-service/src/main.rs:1276-1338 | Every step of every replica keeps counters, history and requests in agreement |
| `TokenIssuance.IssuanceOverEveryRun` | identity-service/src/main.rs:1276-1338 | In every run the hourly counter is the sum of the granted batches and within the full cap; each grant is all that was asked for or all that was left when the counter was read; just the malformed requests are refused as such; and another refused request read a full counter or was overtaken by three reservations of others |
| `TokenIssuance.FirstRequestIsGranted` | identity-service/src/main.rs:1276-1338 | A well-formed request that meets no other in a fresh hour gets all it asks for, or its whole cap if that is less |
| `TokenIssuance.HourCounter.TryReserve` | crates/construct-queue/src/rate_limiting.rs:126-158 | All or nothing under the cap; a refusal changes nothing |
| `TokenIssuance.HourCounter.ReserveUpTo` | identity-service/src/main.rs:1298-1323 | The three-attempt loop with others' reservations in between: conservation of the counter, the exact size of a grant, and a refusal without a full counter means all three rounds were disturbed |
| `TokenIssuance.HourCounter.IssueTokens` | identity-service/src/main.rs:1244-1350 | The counter moves by what others reserved in the rounds taken plus exactly the points evaluated; a malformed batch leaves it unchanged; the evaluated points are a prefix of the batch |
| `AccountRecovery.User.SetRecoveryKey` | identity-service/src/recovery.rs:129-199 | Accepted exactly when the key has 1984 bytes, the time is within ten minutes, both halves signed the setup message, the backup is within 256 KiB and the stored halves, where set, are its own; then both halves are stored, and the address only if there was no key |
| `AccountRecovery.User.Recover` | identity-service/src/main.rs:783-899 | A claim that is not in order (key halves, seven days, ten minutes, after the last recovery, both signatures) changes nothing; one whose device is taken completes the key and starts no cooldown; otherwise it completes the key, registers its device, keeps the address and starts the cooldown |
| `AccountRecovery.SetupWritesItsKey` | identity-service/src/recovery.rs:166-198 | A setup's update changes no set half of the key, whatever happened since it read, and what it writes is its own key |
| `AccountRecovery.SetupAccepted` | identity-service/src/recovery.rs:166-198 | Exactly when a late setup is accepted, and what it then changes |
| `AccountRecovery.SetupChangesAddress` | identity-service/src/recovery.rs:166-198 | A setup changes an address that is set exactly when it read no key and the address is not its Ed25519 half |
| `AccountRecovery.SetupReplacesAnAddress` | identity-service/src/recovery.rs:178-197 | An account with an address and no recovery key gets another address with its first key |
| `AccountRecovery.StepKeeps` | identity-service/src/recovery.rs:129-199 | Every statement of every handler keeps both halves write-once, the address as described next and every write proved |
| `AccountRecovery.RecoveryKeyIsWrittenOnce` | identity-service/src/recovery.rs:324-362 | Over every interleaving each half goes from empty to one value and both halves of whatever was written signed for it within ten minutes of the check; the address is the old one until this code sets the key and then its Ed25519 half, so it is kept exactly unless the account began with an address, no key, and got a key with another half |
| `AccountRecovery.SetupOkMeansStored` | identity-service/src/recovery.rs:166-198 | A setup answered Ok left its Ed25519 half stored, and its ML-DSA half unless another request set that column in between |
| `AccountRecovery.FreshWindowsAreDisjoint` | identity-service/src/recovery.rs:312-339 | A claim fresh at one moment is older than any claim fresh seven days later |
| `AccountRecovery.StepKeepsDevices` | identity-service/src/main.rs:783-899 | Every statement keeps: registered devices do not clash, and each completed recovery and each one about to be marked has a device of its own |
| `AccountRecovery.ClaimRecoversOnce` | crates/construct-db/src/lib.rs:576-649 | One signed claim recovers at most once in every run, overlapping requests included: two recoveries registered devices with different ids and different identity keys |
| `AccountRecovery.RecoveriesAreApart` | identity-service/src/recovery.rs:312-339 | Two recoveries are seven days apart exactly when the later was verified after the earlier was complete, and then its claim was signed later; in either case they are two claims |
| `AccountRecovery.RecoveriesAreAfterTheStored` | identity-service/src/recovery.rs:312-339 | Every recovery of a run, overlapping ones too, is seven days after the recovery the account began with, and its claim was signed after that |
| `AccountRecovery.RecoveriesOneAtATime` | identity-service/src/main.rs:783-899 | With each recovery complete before the next is verified, all are seven days apart and all claims differ |
| `AccountRecovery.OverlappingRecoveriesAreNotApart` | identity-service/src/main.rs:783-899 | Two claims for different new devices, both verified before either recovery is complete, recover twice at one moment |
| `StickerManifest.ComputeVarint` | fuzz/seeds/gen_sealed_inner_seeds.py:16-23 | The shifting loop against the recursive varint |
| `StickerManifest.VarintRoundTrip` | fuzz/seeds/gen_sealed_inner_seeds.py:16-23 | Reading a varint back gives the number and exactly what followed it |
| `StickerManifest.LengthDelimitedIsPrefixFree` | fuzz/seeds/gen_sealed_inner_seeds.py:28-29 | A length-delimited field can be told from what follows it |
| `StickerManifest.VarintFieldIsPrefixFree` | fuzz/seeds/gen_sealed_inner_seeds.py:31-32 | So can a varint field |
| `StickerManifest.EncodeEntryIsInjective` | shared/proto/messaging/sticker_pack.proto:15-58 | An entry's encoding names the entry, default values left out |
| `StickerManifest.EntryRoundTrip` | shared/proto/messaging/sticker_pack.proto:15-58 | Reading an encoded entry by field number gives the entry back |
| `StickerManifest.ManifestRoundTrip` | shared/proto/messaging/sticker_pack.proto:15-58 | Reading an encoded manifest by field number gives the manifest back, for all manifests |
| `StickerManifest.EncodeIsInjective` | media-service/src/stickers.rs:48-57 | A manifest's encoding names the manifest, for all manifests, valid or not |
| `StickerManifest.PackIdFixesPack` | media-service/src/stickers.rs:48-61 | One pack id fixes title, publisher and every entry in order, or a collision |
| `StickerManifest.ResigningKeepsId` | media-service/src/stickers.rs:48-61 | A manifest signed anew keeps its id, and what is hashed reads back as the manifest without id and signature |
| `StickerPacks.ValidateManifest` | media-service/src/stickers.rs:67-124 | Accepts exactly 1 to 120 stickers of 512 by 512 with a 32-byte hash, an emoji of 1 to 32 bytes and 1 to 102400 bytes, with title and publisher not blank, under the hash of the manifest without id and signature; a bad sticker is reported by its first position |
| `StickerPacks.TotalIsSum` | media-service/src/stickers.rs:419-423 | The size of a pack is the sum of its stickers' sizes |
| `StickerPacks.PackTable.UpsertUnlisted` | media-service/src/stickers.rs:407-443 | Inserts the manifest's own columns unlisted, or replaces only the bytes of the row under its id; nothing else changes |
| `StickerPacks.PackTable.SetListedFlag` | media-service/src/stickers.rs:445-453 | Answers whether the pack exists and changes only its flag |
| `StickerPacks.RunHoldsOrigin` | media-service/src/stickers.rs:407-443 | After every run a row exists exactly for an accepted id and summarises the first manifest accepted under it |
| `StickerPacks.SummaryColumnsStayRight` | media-service/src/stickers.rs:407-443 | After every run the summary columns are those of every manifest accepted under the id, or a collision |
| `StickerPacks.PublishedOnce` | media-service/src/stickers.rs:407-453 | A pack keeps the time it was first stored through every later upsert and listing |
| `StickerCatalog.EncodeCursor` | media-service/src/stickers.rs:241-255 | Eight bytes of time, most significant first in two's complement, and then the id |
| `StickerCatalog.CursorRoundTrip` | media-service/src/stickers.rs:241-272 | Decoding an encoded cursor gives the position back, negative times included |
| `StickerCatalog.TokenRoundTrip` | media-service/src/stickers.rs:241-272 | Every token of the right length is the token of one position |
| `StickerCatalog.LessIsDictionary` | media-service/src/stickers.rs:325-380 | Ids are compared as the database compares bytes: at the first byte that differs, or where the shorter one ends |
| `StickerCatalog.PageSize` | media-service/src/stickers.rs:274-281 | 50 packs when none are asked for; otherwise what is asked for, cut at 200 |
| `StickerCatalog.SortIsRight` | media-service/src/stickers.rs:325-380 | Ordering puts rows strictly in listing order and keeps each of them |
| `StickerCatalog.OrderIsUnique` | media-service/src/stickers.rs:325-380 | There is one way to list a set of rows in order |
| `StickerCatalog.ListStickerPacks` | media-service/src/sticker_grpc.rs:108-141 | Refused exactly for a token that is neither empty nor 40 bytes; the next token is empty exactly when the page is not full, and otherwise decodes to the page's last pack |
| `StickerCatalog.PageIsRight` | media-service/src/stickers.rs:325-380 | A page is in order and past its cursor, and a listed pack past the cursor is on it or past a full page's last |
| `StickerCatalog.WalkIsRight` | media-service/src/sticker_grpc.rs:108-141 | Whatever rows the calls meet and whatever sizes are asked for: positions in order and none twice, only listed ones, and on ending every position listed throughout |
| `StickerCatalog.WalkOfTheTable` | media-service/src/sticker_grpc.rs:108-141 | Over the pack table, with any upserts and listings between the calls: newest first and then by id from the top, no pack id twice, only packs listed at some call, and on ending every pack listed at all of them |
| `StickerCatalog.WalkOfAFixedCatalog` | media-service/src/sticker_grpc.rs:108-141 | Over a fixed catalog a walk ends exactly when the sizes add up to more than the catalog, and then it is the sorted catalog, once |
| `RateLimiter.RetainTwice` | media-service/src/rate_limit.rs:34-48 | Times thrown away at one moment would be thrown away at any later one |
| `RateLimiter.YoungIsCount` | media-service/src/rate_limit.rs:34-48 | The events younger than the window are those since the moment one window back |
| `RateLimiter.IntervalBound` | media-service/src/rate_limit.rs:23-48 | No half-open interval of the window's length holds more than the maximum of accepted events of a key |
| `RateLimiter.PruneKeeps` | media-service/src/rate_limit.rs:34-48 | The large-map prune changes no key's times, so no decision |
| `RateLimiter.SlidingWindowLimiter.constructor` | media-service/src/rate_limit.rs:23-32 | A limiter with no history; a maximum of zero counts as one |
| `RateLimiter.SlidingWindowLimiter.CheckAndRecord` | media-service/src/rate_limit.rs:34-48 | Accepts exactly when fewer than the maximum of the key's accepted events lie in the window that ends now, and records just that event |
| `RateLimiter.SlidingWindowLimiter.LimitHolds` | media-service/src/rate_limit.rs:17-48 | The interval bound at every moment between calls |
| `FederationEnvelope.TwoPassesAreOneMap` | scripts/test-federation.py:67-70 | Replacing percent signs and then colons is one map over the characters |
| `FederationEnvelope.UnescapeEscape` | scripts/test-federation.py:67-70 | The escape can be undone |
| `FederationEnvelope.JoinIsInjective` | scripts/test-federation.py:67-70 | The escaped join names its fields, for any strings and any number of them |
| `FederationEnvelope.SplitJoin` | scripts/test-federation.py:67-70 | Cutting at the colons and unescaping gives the fields back |
| `FederationEnvelope.DecimalRoundTrip` | scripts/test-federation.py:69-69 | The timestamp can be read back from its decimal form |
| `FederationEnvelope.CanonicalEnvelopeReads` | scripts/test-federation.py:67-70 | Read back, the signed string is message id, sender, recipient, origin, destination, time and payload hash, in that order |
| `FederationEnvelope.CanonicalEnvelopeIsInjective` | scripts/test-federation.py:67-70 | Two envelopes have one signing representation only if all seven fields agree |

## Left out

- Cryptography: SHA-256, Ed25519, ML-DSA, VOPRF and DLEQ are uninterpreted functions and predicates. `SignedPrekeys.OverlappedRotation`, `OverlappedKyberUpload`, `OverlappedHybridUpload` and `SignedPrekeyRuns.EveryBundleAccepted` assume that a hybrid signature is good for one key and one message.
- gRPC and HTTP wiring, status codes, logging, metrics, push notifications and the gateway.
- Database and Redis clients beyond the atomic effect of each statement or script. A fault is modelled where a property is about faults: delivery, sealed sends and lost reservations.
- Key Transparency: the `usize` width of positions and the database error paths of a build. Tree sizes in a head are bounded by 64 bits, as in the source.
- SignedPrekeys.ServedBundleIsAccepted: does not speak of the hybrid signature of a stored Kyber one-time key after the device replaces its hybrid identity, because the source does not check those again; their Ed25519 half is covered by `OneTimeKeys.HandedKeysPassedTheirUpload`.
- SignedPrekeys.RunKeepsConsistent: takes clock readings up to the last second the source's date type can name.
- SignedPrekeys.DeviceTable.Handler: begins after authentication and after the checks on one-time keys in the same request.
- OneTimeKeys.OneTimeKeyTable.Fetch: is one fetch that meets no other; overlapping fetches are steps of `OneTimeKeys.Run`.
- OneTimeKeys.OneTimeKeyTable.Upload: covers one pool; the source does the same to both pools in one call.
- Admission: the caller's rate buckets, the hourly limit on replacing uploads, and a drain counter that cannot be read or written, which lets fetches through uncounted.
- Delivery: stream trimming and retention, wake-up pushes, and the reading side of a mailbox. Identifiers are their UTF-8 bytes, shorter than 2^64.
- SealedSend: the two cache layers of a tag are one mark that can expire, and a tag stands for its cache key; the token gate, intake checks and token redemption before the tag check.
- TokenIssuance: the DLEQ proof over the evaluated prefix, and calls to the counter that fail, which refuse the request.
- AccountRecovery: a missing account, the stored encrypted backup, the lookup by user name, and the deactivation of the old devices, their sessions and the new tokens. The device table is modelled for its two uniqueness constraints. A recovery that stops half-way is a run in which its later steps never come. The ten-minute freshness test is in a crate outside the repository.
- StickerManifest: unknown fields and wire types a reader skips. Field numbers and the omission of default values follow proto3.
- StickerPacks: the WebP header of a blob, the blob table and the publishing tool. Which texts are blank is a parameter.
- StickerCatalog.WalkIsRight: excludes repeats of positions; that one pack has one position is a fact of the table and is used in `StickerCatalog.WalkOfTheTable`.
- StickerCatalog: packs are represented by their position in the listing; the other summary columns are in `StickerPacks`.
- RateLimiter: the mutex around the map, and clocks that go back.
- FederationEnvelope: the UTF-8 encoding of the joined string.
- Invites, group hub, media files and their cleanup, safety numbers, backfill jobs, dashboards and signing scripts: plumbing, or easier than what is here.
